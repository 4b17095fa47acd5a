/** How a C download comes to send beyond its window: whenever the window is above one block and the
    file long enough, ACKs of part of a window and timeouts pile up frames in the prebuild queue until
    a prebuild falls short of what is queued, and the next full ACK sends it all. */
module Overrun {
  import opened Blocks
  import opened Protocol
  import opened ReadEngine
  import opened ReadRefinement
  import opened DownloadWindow
  import opened WindowOne

  // ---- What fits a queue ---------------------------------------------

  /** How many of `left` full blocks still fit a queue that holds `bytes`. */
  function Room(c: Config, bytes: nat, left: nat): nat
    requires bytes <= QUEUE_CAP
  {
    Min(left, Times(QUEUE_CAP - bytes, FullCost(c)))
  }

  /** How many times `cost` fits into a. */
  function Times(a: nat, cost: nat): nat {
    if cost == 0 || a < cost then 0 else Times(a - cost, cost) + 1
  }

  lemma {:induction false} TimesIs(a: nat, cost: nat, n: nat)
    requires cost > 0
    ensures n * cost <= a <==> n <= Times(a, cost)
  {
    if n > 0 {
      OneLess(n - 1, cost);
      if a >= cost {
        TimesIs(a - cost, cost, n - 1);
      }
    }
  }

  lemma RoomStep(c: Config, bytes: nat, left: nat)
    requires bytes <= QUEUE_CAP && left > 0
    ensures bytes + FullCost(c) > QUEUE_CAP ==> Room(c, bytes, left) == 0
    ensures bytes + FullCost(c) <= QUEUE_CAP ==> Room(c, bytes, left) == Room(c, bytes + FullCost(c), left - 1) + 1
  {
    hide FullCost;
    PositiveCost(c);
  }

  lemma PositiveCost(c: Config)
    ensures FullCost(c) >= 20
  {
  }

  /** Of full blocks, a fill with working reads queues exactly as many as fit. */
  lemma {:induction false} FillExact(c: Config, q: seq<Frame>, b: nat, offset: nat, left: nat, readable: nat)
    requires c.Valid() && c.blksize <= MAX_CHUNK && 1 <= b && b + left <= c.Total() && offset == (b - 1) * c.blksize
    requires QueueBytes(c, q) <= QUEUE_CAP && readable >= left
    ensures var last := b - 1 + Room(c, QueueBytes(c, q), left);
            && last >= 0
            && Fill(c, q, b - 1, b, offset, left, readable) == Filled(q + FramesOf(c, b, last), last, false, true)
            && QueueBytes(c, q + FramesOf(c, b, last)) == QueueBytes(c, q) + (last + 1 - b) * FullCost(c)
    decreases left
  {
    hide BlockCount, Fill, FramesOf, FrameOf, QueueBytes, FullCost, Room;
    var bytes := QueueBytes(c, q);
    assert q + [] == q;
    if left == 0 {
      NoRoom(c, bytes);
      FillNone(c, q, b, offset, readable);
    } else {
      FillOne(c, q, b, offset, left, readable);
      RoomStep(c, bytes, left);
      if bytes + FullCost(c) <= QUEUE_CAP {
        var f := FrameOf(c, b);
        FillExact(c, q + [f], b + 1, b * c.blksize, left - 1, readable - 1);
        var n := Room(c, bytes + FullCost(c), left - 1);
        OneLess(n, FullCost(c));
        assert q + [f] + FramesOf(c, b + 1, b + n) == q + FramesOf(c, b, b + n);
      }
    }
  }

  lemma FillNone(c: Config, q: seq<Frame>, b: nat, offset: nat, readable: nat)
    requires b > 0
    ensures Fill(c, q, b - 1, b, offset, 0, readable) == Filled(q, b - 1, false, true)
  {
  }

  /** Of a full block a fill queues the frame and goes on, or stops when the queue has no room for it. */
  lemma FillOne(c: Config, q: seq<Frame>, b: nat, offset: nat, left: nat, readable: nat)
    requires c.Valid() && c.blksize <= MAX_CHUNK && 1 <= b < c.Total() && offset == (b - 1) * c.blksize
    requires left > 0 && readable > 0
    ensures var q' := q + [FrameOf(c, b)];
            && QueueBytes(c, q') == QueueBytes(c, q) + FullCost(c)
            && Fill(c, q, b - 1, b, offset, left, readable) ==
               if QueueBytes(c, q') > QUEUE_CAP then Filled(q, b - 1, false, true)
               else Fill(c, q', b, b + 1, b * c.blksize, left - 1, readable - 1)
  {
    hide BlockCount, Fill, FrameOf, QueueBytes, FullCost, Cost;
    FillBlock(c, q, b, offset, left, readable);
    FullFrame(c, b);
    QueueBytesPush(c, q, FrameOf(c, b));
  }

  lemma NoRoom(c: Config, bytes: nat)
    requires bytes <= QUEUE_CAP
    ensures Room(c, bytes, 0) == 0
  {
    hide FullCost;
    PositiveCost(c);
  }

  /** The blocks a window of full blocks holds, and the bytes they take. */
  function Span(c: Config): nat {
    Room(c, 0, c.windowsize)
  }

  function Load(c: Config): nat {
    Span(c) * FullCost(c)
  }

  /** A whole window is added exactly when there is room for it. */
  lemma RoomForWindow(c: Config, bytes: nat)
    requires bytes <= QUEUE_CAP
    ensures bytes + Load(c) <= QUEUE_CAP ==> Room(c, bytes, c.windowsize) == Span(c)
    ensures bytes + Load(c) > QUEUE_CAP ==> Room(c, bytes, c.windowsize) < Span(c)
  {
    hide FullCost, Times;
    PositiveCost(c);
    RoomArithmetic(bytes, c.windowsize, FullCost(c));
  }

  lemma RoomArithmetic(bytes: nat, w: nat, cost: nat)
    requires bytes <= QUEUE_CAP && cost > 0
    ensures var span := Min(w, Times(QUEUE_CAP, cost));
            && (bytes + span * cost <= QUEUE_CAP ==> Min(w, Times(QUEUE_CAP - bytes, cost)) == span)
            && (bytes + span * cost > QUEUE_CAP ==> Min(w, Times(QUEUE_CAP - bytes, cost)) < span)
  {
    hide Times;
    var span, free := Min(w, Times(QUEUE_CAP, cost)), QUEUE_CAP - bytes;
    TimesIs(free, cost, span);
    TimesIs(free, cost, Times(free, cost));
    TimesIs(QUEUE_CAP, cost, Times(free, cost));
  }

  // ---- Piling up frames ----------------------------------------------

  /** Everything up to two windows beyond block p is full and can be sent. */
  predicate Roomy(c: Config, p: nat) {
    c.Valid() && c.hasPrebuilt && c.blksize <= MAX_CHUNK && p + 2 * c.windowsize < c.Total()
  }

  /** p blocks are acknowledged, t retries spent, and the queue holds n prebuilt windows, the last of them
      complete. */
  predicate Piled(c: Config, s: Session, p: nat, t: nat, n: nat)
    requires c.blksize > 0
  {
    && s.state == SendRrq && !s.completed && !s.eof && s.retrans == t
    && s.nextBlock == p + 1 && s.windowFirstOffset == p * c.blksize && s.windowLast == p + Span(c)
    && s.preValid && s.preFirst == s.windowLast + 1 && s.preLast == s.windowLast + Span(c)
    && QueueBytes(c, s.prebuilt) == n * Load(c)
    && (Span(c) > 0 ==> FrameOf(c, p + 2 * Span(c)) in s.prebuilt)
  }

  /** The session after a window of full blocks and a prebuild on the given queue. */
  function Sent(c: Config, s: Session): Session
    requires c.blksize > 0 && QueueBytes(c, s.prebuilt) <= QUEUE_CAP
  {
    var first := s.nextBlock + Span(c);
    var last := first - 1 + Room(c, QueueBytes(c, s.prebuilt), c.windowsize);
    if s.nextBlock == 0 then s else SentUpTo(c, s, first, last)
  }

  /** The window sent ends before block `first`, and the prebuild holds the blocks from there to `last`. */
  function SentUpTo(c: Config, s: Session, first: nat, last: nat): Session
    requires c.blksize > 0 && 1 <= s.nextBlock <= first
  {
    s.(wire := s.wire + FramesOf(c, s.nextBlock, first - 1), windowLast := first - 1, eof := false,
       prebuilt := s.prebuilt + FramesOf(c, first, last), preFirst := first, preLast := last,
       preFirstOffset := (first - 1) * c.blksize, preEof := false, preValid := true)
  }

  lemma SendsSo(c: Config, s: Session, p: nat)
    requires Roomy(c, p) && s.state == SendRrq && s.nextBlock == p + 1 && s.windowFirstOffset == p * c.blksize
    requires QueueBytes(c, s.prebuilt) <= QUEUE_CAP
    ensures SendWindow(c, s, c.windowsize, c.windowsize) == Sent(c, s)
    ensures QueueBytes(c, Sent(c, s).prebuilt)
         == QueueBytes(c, s.prebuilt) + Room(c, QueueBytes(c, s.prebuilt), c.windowsize) * FullCost(c)
    ensures Span(c) <= c.windowsize
  {
    hide BlockCount, FillWindow, FramesOf, QueueBytes, FullCost, Room, Span;
    SpanBound(c);
    var k := p + Span(c);
    EmptySo(c, p + 1, p * c.blksize);
    FillSo(c, s.prebuilt, k + 1, k * c.blksize);
    OffsetsAdd(p + 1, k, c.blksize);
  }

  lemma FillSo(c: Config, q: seq<Frame>, b: nat, offset: nat)
    requires c.Valid() && c.blksize <= MAX_CHUNK && 1 <= b && b + c.windowsize <= c.Total()
    requires offset == (b - 1) * c.blksize && QueueBytes(c, q) <= QUEUE_CAP
    ensures var n := Room(c, QueueBytes(c, q), c.windowsize);
            var fs := FramesOf(c, b, b - 1 + n);
            && FillWindow(c, q, b, offset, c.windowsize) == Filled(q + fs, b - 1 + n, false, true)
            && QueueBytes(c, q + fs) == QueueBytes(c, q) + n * FullCost(c)
  {
    hide BlockCount, Fill, FramesOf, QueueBytes, FullCost, Room;
    FillExact(c, q, b, offset, c.windowsize, c.windowsize);
  }

  lemma EmptySo(c: Config, b: nat, offset: nat)
    requires c.Valid() && c.blksize <= MAX_CHUNK && 1 <= b && b + c.windowsize <= c.Total()
    requires offset == (b - 1) * c.blksize
    ensures FillWindow(c, [], b, offset, c.windowsize)
         == Filled(FramesOf(c, b, b - 1 + Span(c)), b - 1 + Span(c), false, true)
  {
    hide BlockCount, FillWindow, FramesOf, QueueBytes, FullCost, Room;
    EmptyFits(c);
    FillSo(c, [], b, offset);
    var fs := FramesOf(c, b, b - 1 + Span(c));
    assert [] + fs == fs;
  }

  lemma SpanBound(c: Config)
    ensures Span(c) <= c.windowsize
  {
    hide FullCost;
  }

  /** With room for one more window, sending adds it. */
  lemma PileSend(c: Config, s: Session, p: nat, t: nat, n: nat)
    requires Roomy(c, p) && s.state == SendRrq && !s.completed && s.retrans == t
    requires s.nextBlock == p + 1 && s.windowFirstOffset == p * c.blksize
    requires QueueBytes(c, s.prebuilt) == n * Load(c) && (n + 1) * Load(c) <= QUEUE_CAP
    ensures Piled(c, SendWindow(c, s, c.windowsize, c.windowsize), p, t, n + 1)
  {
    hide BlockCount, QueueBytes, FullCost, Room, FrameOf, Load;
    OneLess(n, Load(c));
    SendsSo(c, s, p);
    RoomForWindow(c, n * Load(c));
    LoadIs(c);
    var first := p + 1 + Span(c);
    var fs := FramesOf(c, first, p + 2 * Span(c));
    if Span(c) > 0 {
      assert fs[Span(c) - 1] == FrameOf(c, p + 2 * Span(c));
      assert FrameOf(c, p + 2 * Span(c)) in s.prebuilt + fs;
    }
  }

  lemma LoadIs(c: Config)
    ensures Load(c) == Span(c) * FullCost(c)
  {
  }

  /** Without, the new prebuild falls short of what is queued. */
  lemma PileTop(c: Config, s: Session, p: nat, n: nat)
    requires Roomy(c, p) && s.state == SendRrq && s.nextBlock == p + 1 && s.windowFirstOffset == p * c.blksize
    requires QueueBytes(c, s.prebuilt) == n * Load(c) <= QUEUE_CAP < (n + 1) * Load(c)
    ensures var s' := SendWindow(c, s, c.windowsize, c.windowsize);
            && s'.state == SendRrq && !s'.eof && s'.windowLast == p + Span(c) && s'.preValid
            && s'.preLast < p + 2 * Span(c) && s'.nextBlock == p + 1
  {
    hide BlockCount, QueueBytes, FullCost, Room, FrameOf, Load, FramesOf;
    OneLess(n, Load(c));
    SendsSo(c, s, p);
    RoomForWindow(c, n * Load(c));
  }

  // ---- The runs ------------------------------------------------------

  /** The first p blocks are acknowledged one at a time. */
  function Acked(c: Config, p: nat): Run {
    if p == 0 then Started(0, c.windowsize, c.windowsize)
    else Then(Acked(c, p - 1), ReadEngine.Ack(p, c.windowsize, c.windowsize))
  }

  /** Then t timeouts. */
  function Piling(c: Config, p: nat, t: nat): Run {
    if t == 0 then Acked(c, p) else Then(Piling(c, p, t - 1), Expire(c.windowsize, c.windowsize))
  }

  /** Then one more, and the ACK of the whole window. */
  function OverrunRun(c: Config, p: nat, t: nat): Run {
    Then(Piling(c, p, t + 1), ReadEngine.Ack(p + Span(c), c.windowsize, c.windowsize))
  }

  /** What all of these runs have in common. */
  predicate Ordinary(c: Config, run: Run) {
    Regular(c, run) && SentOnly(c, run) && HonestClient(c, run) && CoveredFlushes(c, run) && Midway(c, run)
  }

  /** Now and at every earlier point the download goes on and has more to send. */
  predicate Midway(c: Config, run: Run) {
    Exec(c, run).state == SendRrq && !Exec(c, run).eof && (run.Then? ==> Midway(c, run.before))
  }

  lemma OrdinaryAck(c: Config, run: Run, b: nat)
    requires c.Valid() && Ordinary(c, run) && Exec(c, run).state == SendRrq && 1 <= b <= Exec(c, run).windowLast
    requires Flushes(Exec(c, run), Wire(b)) ==> Covered(Exec(c, run))
    requires var s := Exec(c, Then(run, ReadEngine.Ack(b, c.windowsize, c.windowsize))); s.state == SendRrq && !s.eof
    ensures Ordinary(c, Then(run, ReadEngine.Ack(b, c.windowsize, c.windowsize)))
  {
    hide BlockCount, Exec, AllTrue, PrebuiltAgrees, Flushes, Covered, FrameOf;
    RunKeeps(c, run);
    var wire := Exec(c, run).wire;
    assert FrameOf(c, b) in wire;
    var i :| 0 <= i < |wire| && wire[i] == FrameOf(c, b);
    assert wire[i].block == b by { FrameBlock(c, b); }
  }

  lemma OrdinaryExpire(c: Config, run: Run)
    requires Ordinary(c, run)
    requires var s := Exec(c, Then(run, Expire(c.windowsize, c.windowsize))); s.state == SendRrq && !s.eof
    ensures Ordinary(c, Then(run, Expire(c.windowsize, c.windowsize)))
  {
    hide Exec;
  }

  lemma PileStart(c: Config)
    requires Roomy(c, 0) && Load(c) <= QUEUE_CAP
    ensures Piled(c, Begin(c, 0, c.windowsize, c.windowsize), 0, 0, 1)
  {
    hide BlockCount, SendWindow, Load, Piled;
    EmptyFits(c);
    PileSend(c, Unsent(0), 0, 0, 0);
  }

  /** An ACK of the first block of a longer window goes on from disk. */
  lemma PileAck(c: Config, s: Session, p: nat, n: nat)
    requires Roomy(c, p + 1) && Inv(c, s) && Piled(c, s, p, 0, n) && Span(c) >= 2 && (n + 1) * Load(c) <= QUEUE_CAP
    ensures Piled(c, OnAck(c, s, Wire(p + 1), c.windowsize, c.windowsize), p + 1, 0, n + 1)
    ensures !Flushes(s, Wire(p + 1))
  {
    hide BlockCount, SendWindow, FlushPrebuilt, Credit, MapAck, AllTrue, AllSent, Load, Span, QueueBytes, FrameOf;
    hide PrebuiltAgrees;
    SpanBound(c);
    MapAckInverts(s.windowLast, p + 1);
    CreditKeeps(c, s, p + 1);
    CreditFrame(c, s, p + 1);
    CreditRetries(c, s, p + 1);
    PileSend(c, Credit(c, s, p + 1).(preValid := false), p + 1, 0, n);
  }

  lemma {:induction false} AckedRuns(c: Config, p: nat)
    requires Roomy(c, p) && (p + 1) * Load(c) <= QUEUE_CAP && (p > 0 ==> Span(c) >= 2)
    ensures Ordinary(c, Acked(c, p)) && Piled(c, Exec(c, Acked(c, p)), p, 0, p + 1)
  {
    hide BlockCount, OnAck, Begin, Load, Span, Piled, Ordinary, Inv;
    if p == 0 {
      PileStart(c);
      PiledIs(c, Exec(c, Acked(c, 0)), 0, 0, 1);
      OrdinaryStart(c);
    } else {
      OneLess(p, Load(c));
      AckedRuns(c, p - 1);
      var run := Acked(c, p - 1);
      var s := Exec(c, run);
      assert HonestClient(c, run) by { OrdinaryIs(c, run); }
      RunKeeps(c, run);
      PileAck(c, s, p - 1, p);
      PiledIs(c, s, p - 1, 0, p);
      PiledIs(c, Exec(c, Acked(c, p)), p, 0, p + 1);
      OrdinaryAck(c, run, p);
    }
  }

  lemma OrdinaryStart(c: Config)
    requires var s := Exec(c, Acked(c, 0)); s.state == SendRrq && !s.eof
    ensures Ordinary(c, Acked(c, 0))
  {
    hide Begin;
  }

  lemma OrdinaryIs(c: Config, run: Run)
    requires Ordinary(c, run)
    ensures HonestClient(c, run) && SentOnly(c, run) && CoveredFlushes(c, run) && Regular(c, run) && Midway(c, run)
  {
  }

  lemma PiledIs(c: Config, s: Session, p: nat, t: nat, n: nat)
    requires c.blksize > 0 && Piled(c, s, p, t, n)
    ensures s.state == SendRrq && !s.eof && s.retrans == t && s.windowLast == p + Span(c) && s.nextBlock == p + 1
    ensures s.windowFirstOffset == p * c.blksize && QueueBytes(c, s.prebuilt) == n * Load(c) && !s.completed
    ensures Span(c) > 0 ==> FrameOf(c, p + 2 * Span(c)) in s.prebuilt
  {
  }

  lemma {:induction false} PilingRuns(c: Config, p: nat, t: nat)
    requires Roomy(c, p) && (p + t + 1) * Load(c) <= QUEUE_CAP && (p > 0 ==> Span(c) >= 2) && t <= MAX_RETRANS
    ensures Ordinary(c, Piling(c, p, t)) && Piled(c, Exec(c, Piling(c, p, t)), p, t, p + t + 1)
  {
    hide BlockCount, SendWindow, OnAck, Begin, Load, Span, Piled, Ordinary, QueueBytes;
    if t == 0 {
      AckedRuns(c, p);
    } else {
      OneLess(p + t, Load(c));
      PilingRuns(c, p, t - 1);
      var run := Piling(c, p, t - 1);
      var s := Exec(c, run);
      PiledIs(c, s, p, t - 1, p + t);
      PileSend(c, s.(retrans := t, preValid := false), p, t, p + t);
      PiledIs(c, Exec(c, Piling(c, p, t)), p, t, p + t + 1);
      OrdinaryExpire(c, run);
    }
  }

  /** How many windows fit the queue together. */
  function Windows(c: Config): nat {
    Times(QUEUE_CAP, Load(c))
  }

  /** After p ACKs of one block each and t timeouts the queue is full, and the next timeout's prebuild falls
      short of it. */
  lemma PilesTop(c: Config, p: nat, t: nat)
    requires Roomy(c, p) && t < MAX_RETRANS && 1 <= Span(c) && (p > 0 ==> Span(c) >= 2)
    requires (p + t + 1) * Load(c) <= QUEUE_CAP < (p + t + 2) * Load(c)
    ensures var run := Piling(c, p, t + 1);
            var s := Exec(c, run);
            && Ordinary(c, run) && s.nextBlock == p + 1 && s.windowLast == p + Span(c) && s.preValid && !Covered(s)
  {
    hide BlockCount, SendWindow, OnAck, Begin, Load, Span, Piled, Ordinary, QueueBytes, FrameOf, Covered, Inv, Leftover;
    PilingRuns(c, p, t);
    var run := Piling(c, p, t);
    var s := Exec(c, run);
    PiledIs(c, s, p, t, p + t + 1);
    PileTop(c, s.(retrans := t + 1, preValid := false), p, p + t + 1);
    OrdinaryExpire(c, run);
    OrdinaryIs(c, run);
    RunKeeps(c, run);
    TimeoutLeavesFrames(c, s, c.windowsize, c.windowsize);
    NotCovered(c, Exec(c, Piling(c, p, t + 1)), p + 2 * Span(c));
  }

  /** So the next full ACK leaves blocks sent beyond the window. */
  lemma PilesOverrun(c: Config, p: nat, t: nat)
    requires Roomy(c, p) && t < MAX_RETRANS && 1 <= Span(c) && (p > 0 ==> Span(c) >= 2)
    requires (p + t + 1) * Load(c) <= QUEUE_CAP < (p + t + 2) * Load(c)
    ensures var run := OverrunRun(c, p, t);
            && Regular(c, run) && SentOnly(c, run) && HonestClient(c, run)
            && CoveredFlushes(c, run.before) && !CoveredFlushes(c, run)
            && Midway(c, run.before) && Exec(c, run.before).nextBlock == p + 1
  {
    hide BlockCount, Load, Span, Ordinary, Covered, Exec, Piling;
    PilesTop(c, p, t);
    OrdinaryIs(c, Piling(c, p, t + 1));
    LastAck(c, Piling(c, p, t + 1), p + Span(c));
  }

  lemma NotCovered(c: Config, s: Session, b: nat)
    requires c.blksize > 0 && b > s.preLast && FrameOf(c, b) in Leftover(s)
    ensures !Covered(s)
  {
    hide Leftover, FrameOf;
    var i :| 0 <= i < |Leftover(s)| && Leftover(s)[i] == FrameOf(c, b);
    FrameBlock(c, b);
  }

  /** The ACK of the whole window, when the flush is not covered. */
  lemma LastAck(c: Config, run: Run, b: nat)
    requires c.Valid() && Ordinary(c, run)
    requires var s := Exec(c, run); s.preValid && 1 <= s.nextBlock <= s.windowLast == b && !Covered(s)
    ensures var full := Then(run, ReadEngine.Ack(b, c.windowsize, c.windowsize));
            && Regular(c, full) && SentOnly(c, full) && HonestClient(c, full) && !CoveredFlushes(c, full)
            && CoveredFlushes(c, run)
  {
    hide BlockCount, Exec, AllTrue, Covered, FrameOf, MapAck;
    RunKeeps(c, run);
    var s := Exec(c, run);
    MapAckInverts(b, b) by { WindowBelow(c, s); }
    assert FrameOf(c, b) in s.wire;
    var i :| 0 <= i < |s.wire| && s.wire[i] == FrameOf(c, b);
    assert s.wire[i].block == b by { FrameBlock(c, b); }
  }

  // ---- For every configuration ---------------------------------------

  lemma TwoFit(c: Config)
    requires c.Valid() && c.blksize <= MAX_CHUNK && c.windowsize >= 2
    ensures Span(c) >= 2 && 0 < Load(c) <= QUEUE_CAP
  {
    hide Times;
    var cost := FullCost(c);
    assert 20 <= cost <= MOST;
    TimesIs(QUEUE_CAP, cost, 2);
    TimesIs(QUEUE_CAP, cost, Span(c));
    MulMonotone(1, Span(c), cost);
  }

  /** How many single ACKs it takes before timeouts can fill the queue. */
  function Singles(c: Config): nat {
    if Windows(c) > MAX_RETRANS then Windows(c) - MAX_RETRANS else 0
  }

  /** Downloads long enough for the queue to fill up before the end. */
  predicate Long(c: Config) {
    c.Valid() && c.hasPrebuilt && c.blksize <= 1998 && c.windowsize >= 2
    && c.Total() > Singles(c) + 2 * c.windowsize + 2
  }

  /** With a window above one block, every download that is long enough has a run, with working reads and a
      client that acknowledges only what it was sent, that sends beyond the window. */
  lemma LeftoversOverrun(c: Config) returns (run: Run)
    requires Long(c)
    ensures run.Then? && Regular(c, run) && SentOnly(c, run) && HonestClient(c, run)
    ensures CoveredFlushes(c, run.before) && !CoveredFlushes(c, run) && !AlwaysWithin(c, run)
    ensures Midway(c, run.before) && Exec(c, run.before).nextBlock == Singles(c) + 1
  {
    hide BlockCount, Load, Span, FullCost, Exec, Covered, FlushEvent, Times;
    TwoFit(c);
    var n := Windows(c);
    TimesIs(QUEUE_CAP, Load(c), n);
    TimesIs(QUEUE_CAP, Load(c), n + 1);
    TimesIs(QUEUE_CAP, Load(c), 1);
    var p := Singles(c);
    var t := n - 1 - p;
    PilesOverrun(c, p, t);
    run := OverrunRun(c, p, t);
    SentWithinIff(c, run);
  }

  /** With working reads and a client that acknowledges only what it was sent, no run of a long enough
      download sends beyond the window exactly when the window is one block. */
  lemma StaysWithinIff(c: Config)
    requires c.Valid() && c.hasPrebuilt && c.blksize <= 1998 && c.Total() > Singles(c) + 2 * c.windowsize + 2
    ensures (forall run | Regular(c, run) && SentOnly(c, run) :: AlwaysWithin(c, run)) <==> c.windowsize == 1
  {
    hide BlockCount, Regular, SentOnly, AlwaysWithin, Singles, CoveredFlushes, Midway;
    if c.windowsize == 1 {
      forall run | Regular(c, run) && SentOnly(c, run) ensures AlwaysWithin(c, run) {
        WindowOneCovered(c, run);
        SentWithinIff(c, run);
      }
    } else {
      var run := LeftoversOverrun(c);
    }
  }
}
