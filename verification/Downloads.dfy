/** A C download joined to a receiving client by a channel that loses, repeats and reorders. The
    client runs the receive loop of `Receiver`; besides the ACKs that loop sends, the channel may
    deliver the ACK of any block the client holds, so every acknowledging habit is covered. */
module Downloads {
  import opened Blocks
  import opened Protocol
  import opened Wrappers
  import opened RE = ReadEngine
  import opened RR = ReadRefinement
  import opened DW = DownloadWindow
  import opened WindowOne
  import opened Overrun
  import Receiver
  import Sender
  import E2E = EndToEnd
  import Limits = EndToEndLimits

  /** Both ends use the negotiated block and window size. */
  datatype Download = Download(c: Config, rcv: Receiver.Job) {
    predicate Valid() {
      c.Valid() && rcv.blksize == c.blksize && rcv.windowsize == c.windowsize
    }

    /** The same transfer as the Python engine would make it. */
    function Link(): (l: E2E.Link)
      requires Valid()
      ensures l.Valid() && l.Total() == c.Total()
    {
      E2E.Link(Sender.Job(c.file, c.blksize, c.windowsize, 0), rcv)
    }
  }

  datatype System = System(ses: Session, client: Receiver.State)

  datatype Move =
    | Server(ev: RE.Event)
    | Deliver(frame: Frame)
    | ClientTimeout
    | StrayToClient(pkt: seq<byte>)

  datatype Course = Start(retrans: nat, readable: nat, preReadable: nat) | Next(before: Course, move: Move)

  /** Frames never leave the channel, and an ACK is of a block the client holds with all before it. */
  predicate Enabled(s: System, m: Move) {
    match m
    case Server(ev) => ev.Ack? ==> ev.block < s.client.expected
    case Deliver(f) => s.client.status == Receiver.Receiving && f in s.ses.wire
    case ClientTimeout => s.client.status == Receiver.Receiving
    case StrayToClient(pkt) => s.client.status == Receiver.Receiving && !Decode(pkt).Data?
  }

  function AtClient(d: Download, s: System, ev: Protocol.Event): System {
    s.(client := Receiver.Step(d.rcv, s.client, ev).state)
  }

  function Apply(d: Download, s: System, m: Move): System {
    match m
    case Server(ev) => s.(ses := RE.Step(d.c, s.ses, ev))
    case Deliver(f) => AtClient(d, s, Packet(f.pkt))
    case ClientTimeout => AtClient(d, s, Timeout)
    case StrayToClient(pkt) => AtClient(d, s, Packet(pkt))
  }

  function After(d: Download, run: Course): System {
    match run
    case Start(retrans, readable, preReadable) => System(Begin(d.c, retrans, readable, preReadable), Receiver.INIT)
    case Next(before, m) => Apply(d, After(d, before), m)
  }

  predicate Possible(d: Download, run: Course) {
    run.Next? ==> Possible(d, run.before) && Enabled(After(d, run.before), run.move)
  }

  /** The server's part of a run. */
  function ServerRun(run: Course): Run {
    match run
    case Start(retrans, readable, preReadable) => Started(retrans, readable, preReadable)
    case Next(before, Server(ev)) => Then(ServerRun(before), ev)
    case Next(before, _) => ServerRun(before)
  }

  lemma {:induction false} ServerPart(d: Download, run: Course)
    ensures After(d, run).ses == Exec(d.c, ServerRun(run))
  {
    if run.Next? {
      ServerPart(d, run.before);
    }
  }

  /** No frame reaches the client so late that its window reaches the next block with that number. */
  predicate RecentFrames(d: Download, run: Course) {
    run.Next? ==>
      && RecentFrames(d, run.before)
      && (run.move.Deliver? ==>
            After(d, run.before).client.expected - run.move.frame.block + d.c.windowsize <= WRAP)
  }

  // ---- How far ahead of the client the server can be -----------------

  /** The session is no further than the client, and nothing sent or prebuilt is more than two windows
      beyond. */
  predicate Ahead(c: Config, s: Session, expected: nat) {
    && UpTo(s.wire, expected + 2 * c.windowsize)
    && (s.state == SendRrq ==> s.nextBlock <= expected && UpTo(s.prebuilt, s.nextBlock + 2 * c.windowsize))
  }

  lemma UpToBoth(fs: seq<Frame>, gs: seq<Frame>, top: int)
    requires UpTo(fs, top) && UpTo(gs, top)
    ensures UpTo(fs + gs, top)
  {
  }

  lemma WindowUpTo(c: Config, lo: nat, hi: int, top: int)
    requires c.blksize > 0 && lo > 0 && hi <= top
    ensures UpTo(FramesOf(c, lo, hi), top)
  {
    hide Slice, PackData;
  }

  lemma PrebuildAhead(c: Config, s: Session, readable: nat, expected: nat)
    requires c.Valid() && ReadyToPrebuild(c, s) && Ahead(c, s, expected)
    ensures Ahead(c, PrebuildNext(c, s, readable), expected)
  {
    hide BlockCount, FillWindow, FramesOf, UpTo, AllTrue, AllSent;
    if !s.eof && c.hasPrebuilt {
      PrebuildStart(c, s);
      FillWindowTrue(c, s.prebuilt, s.windowLast + 1, s.windowLast * c.blksize, readable);
      var r := FillWindow(c, s.prebuilt, s.windowLast + 1, s.windowLast * c.blksize, readable);
      WindowUpTo(c, s.windowLast + 1, r.last, s.nextBlock + 2 * c.windowsize);
      UpToBoth(s.prebuilt, FramesOf(c, s.windowLast + 1, r.last), s.nextBlock + 2 * c.windowsize);
    }
  }

  lemma SendAhead(c: Config, s: Session, readable: nat, preReadable: nat, expected: nat)
    requires c.Valid() && ReadyToSend(c, s) && Ahead(c, s, expected)
    ensures Ahead(c, SendWindow(c, s, readable, preReadable), expected)
  {
    hide BlockCount, FillWindow, FramesOf, UpTo, AllTrue, AllSent, PrebuildNext;
    NothingIsTrue(c);
    FillWindowTrue(c, [], s.nextBlock, s.windowFirstOffset, readable);
    var r := FillWindow(c, [], s.nextBlock, s.windowFirstOffset, readable);
    assert r.queue == FramesOf(c, s.nextBlock, r.last);
    WindowUpTo(c, s.nextBlock, r.last, expected + 2 * c.windowsize);
    UpToBoth(s.wire, r.queue, expected + 2 * c.windowsize);
    if r.ok {
      AfterFillKeeps(c, s, readable);
      PrebuildAhead(c, AfterFill(s, r), preReadable, expected);
    }
  }

  lemma FlushAhead(c: Config, s: Session, preReadable: nat, expected: nat)
    requires c.Valid() && Inv(c, s) && s.state == SendRrq && s.preValid
    requires Ahead(c, s, expected) && s.windowLast < expected
    ensures Ahead(c, FlushPrebuilt(c, Credit(c, s, s.windowLast), preReadable), expected)
  {
    hide BlockCount, FillWindow, FramesOf, AllTrue, AllSent, PrebuildNext, Credit, Leftover;
    CreditBeforeFlush(c, s);
    PrebuiltContents(c, s);
    NothingIsTrue(c);
    BothTrue(c, s.wire, s.prebuilt);
    var s', q := Credit(c, s, s.windowLast), Leftover(s);
    var t := s'.(windowLast := s.preLast, eof := s.preEof, wire := s'.wire + s.prebuilt,
                 prebuilt := [], preValid := false);
    assert s.prebuilt[|q|..] == FramesOf(c, s.windowLast + 1, s.preLast);
    SentAfter(c, s', t, s.prebuilt, s.windowLast + 1, s.preLast);
    PrebuildAhead(c, t, preReadable, expected);
  }

  lemma CreditAhead(c: Config, s: Session, cand: nat, expected: nat)
    requires c.Valid() && Inv(c, s) && s.state == SendRrq && Ahead(c, s, expected)
    requires s.nextBlock <= cand <= s.windowLast && cand < expected
    ensures Ahead(c, Credit(c, s, cand), expected) && Ahead(c, Credit(c, s, cand).(preValid := false), expected)
  {
    hide BlockCount, AllTrue, AllSent, PrebuiltAgrees;
  }

  lemma AckAhead(c: Config, s: Session, block: nat, readable: nat, preReadable: nat, expected: nat)
    requires c.Valid() && Inv(c, s) && s.state == SendRrq && Ahead(c, s, expected)
    requires block <= s.windowLast < block + WRAP && block < expected
    ensures Ahead(c, OnAck(c, s, Wire(block), readable, preReadable), expected)
  {
    hide BlockCount, SendWindow, FlushPrebuilt, Credit, MapAck, AllTrue, AllSent, Ahead;
    MapAckInverts(s.windowLast, block) by { WindowBelow(c, s); }
    if block >= s.nextBlock {
      CreditKeeps(c, s, block);
      CreditFrame(c, s, block);
      CreditAhead(c, s, block, expected);
      var s' := Credit(c, s, block);
      if !s'.completed {
        if s.preValid && s.preFirst == s'.nextBlock && block == s.windowLast {
          FlushAhead(c, s, preReadable, expected);
        } else {
          SendAhead(c, s'.(preValid := false), readable, preReadable, expected);
        }
      }
    }
  }

  lemma ServerAhead(c: Config, s: Session, ev: RE.Event, expected: nat)
    requires c.Valid() && Inv(c, s) && Ahead(c, s, expected)
    requires ev.Ack? && s.state == SendRrq ==> ev.block <= s.windowLast < ev.block + WRAP && ev.block < expected
    ensures Ahead(c, RE.Step(c, s, ev), expected)
  {
    hide BlockCount, FrameOf, OnAck, SendWindow, UpTo, AllTrue, PrebuiltAgrees;
    if s.state == SendRrq {
      match ev
      case Ack(block, readable, preReadable) => AckAhead(c, s, block, readable, preReadable, expected);
      case Expire(readable, preReadable) =>
        if s.retrans + 1 <= MAX_RETRANS {
          SendAhead(c, s.(retrans := s.retrans + 1, preValid := false), readable, preReadable, expected);
        }
      case ClientError =>
    }
  }

  lemma AheadGrows(c: Config, s: Session, expected: nat, expected': nat)
    requires Ahead(c, s, expected) && expected <= expected'
    ensures Ahead(c, s, expected')
  {
  }

  // ---- The joint invariant -------------------------------------------

  predicate Joint(d: Download, s: System)
    requires d.Valid()
  {
    && Inv(d.c, s.ses)
    && Ahead(d.c, s.ses, s.client.expected)
    && E2E.ReceiverInv(d.Link(), s.client, d.c.Total())
    && (s.ses.completed ==> s.client.expected == d.c.Total() + 1)
  }

  /** Either no number in the transfer wraps, or the frame is recent. */
  predicate Clear(d: Download, s: System, f: Frame)
    requires d.Valid()
  {
    d.c.Total() < WRAP || s.client.expected - f.block + d.c.windowsize <= WRAP
  }

  lemma FrameReadBack(d: Download, s: System, f: Frame)
    requires d.Valid() && Clear(d, s, f) && s.client.expected >= 1
    requires 1 <= f.block <= d.c.Total() && f.block <= s.client.expected + 2 * d.c.windowsize
    ensures var m := FirstMatch(s.client.expected, s.client.expected + d.c.windowsize - 1, Wire(f.block));
            m.Some? && m.value != f.block ==> m.value > WRAP && d.c.Total() < WRAP
  {
    hide BlockCount;
    var m := FirstMatch(s.client.expected, s.client.expected + d.c.windowsize - 1, Wire(f.block));
    if m.Some? && m.value != f.block {
      Congruent(m.value, f.block);
    }
  }

  /** What the client does with a frame that is a block up to `limit` keeps its side of the invariant. */
  lemma ClientTakes(d: Download, s: System, f: Frame, limit: int)
    requires d.Valid() && E2E.ReceiverInv(d.Link(), s.client, limit) && s.client.status == Receiver.Receiving
    requires 1 <= f.block <= limit && f == FrameOf(d.c, f.block)
    requires f.block <= s.client.expected + 2 * d.c.windowsize && Clear(d, s, f)
    ensures var r := AtClient(d, s, Packet(f.pkt)).client;
            E2E.ReceiverInv(d.Link(), r, limit) && r.expected >= s.client.expected
  {
    hide BlockCount, Slice, Prefix, PackData, Receiver.Step, Receiver.OnData, FirstMatch, E2E.BufferInv;
    var l, r := d.Link(), s.client.(retries := 0);
    FrameReadBack(d, s, f);
    Receiver.DataStep(d.rcv, s.client, Wire(f.block), l.Block(f.block));
    E2E.OnDataInv(l, r, f.block, limit);
  }

  lemma ClientIgnores(d: Download, s: System, ev: Protocol.Event, limit: int)
    requires d.Valid() && E2E.ReceiverInv(d.Link(), s.client, limit) && s.client.status == Receiver.Receiving
    requires ev.Packet? ==> !Decode(ev.pkt).Data?
    ensures var r := AtClient(d, s, ev).client;
            E2E.ReceiverInv(d.Link(), r, limit) && r.expected == s.client.expected
  {
    hide BlockCount, Prefix, Receiver.Step;
    Receiver.QuietStep(d.rcv, s.client, ev);
  }

  lemma TrueFrame(c: Config, fs: seq<Frame>, f: Frame, top: int)
    requires c.blksize > 0 && AllTrue(c, fs) && UpTo(fs, top) && f in fs
    ensures 1 <= f.block <= c.Total() && f.block <= top && f == FrameOf(c, f.block)
  {
    hide BlockCount, Slice, PackData;
  }

  lemma {:induction false} JointInEveryRun(d: Download, run: Course)
    requires d.Valid() && Possible(d, run) && RecentClient(d.c, ServerRun(run))
    requires d.c.Total() < WRAP || RecentFrames(d, run)
    ensures Joint(d, After(d, run))
  {
    hide BlockCount, Slice, Prefix, AllSent, PrebuiltAgrees, RE.Step, Receiver.Step, Begin;
    match run
    case Start(retrans, readable, preReadable) => JointStarts(d, retrans, readable, preReadable);
    case Next(before, m) =>
      JointInEveryRun(d, before);
      var s := After(d, before);
      match m
      case Server(ev) => JointServer(d, before, ev);
      case Deliver(f) => JointDeliver(d, s, f);
      case ClientTimeout => ClientIgnores(d, s, Timeout, d.c.Total());
      case StrayToClient(pkt) => ClientIgnores(d, s, Packet(pkt), d.c.Total());
  }

  lemma JointStarts(d: Download, retrans: nat, readable: nat, preReadable: nat)
    requires d.Valid()
    ensures Joint(d, System(Begin(d.c, retrans, readable, preReadable), Receiver.INIT))
  {
    hide BlockCount, AllTrue, FrameOf, SendWindow, PrebuiltAgrees;
    BeginKeeps(d.c, retrans, readable, preReadable);
    SendFrame(d.c, Unsent(retrans), readable, preReadable);
    NothingIsTrue(d.c);
    SendAhead(d.c, Unsent(retrans), readable, preReadable, 1);
    assert d.Link().Written(0) == [];
  }

  lemma JointDeliver(d: Download, s: System, f: Frame)
    requires d.Valid() && Joint(d, s) && Enabled(s, Deliver(f)) && Clear(d, s, f)
    ensures Joint(d, Apply(d, s, Deliver(f)))
  {
    hide BlockCount, Slice, Prefix, AllTrue, AllSent, PrebuiltAgrees, Receiver.Step, E2E.BufferInv;
    TrueFrame(d.c, s.ses.wire, f, s.client.expected + 2 * d.c.windowsize);
    ClientTakes(d, s, f, d.c.Total());
    AheadGrows(d.c, s.ses, s.client.expected, AtClient(d, s, Packet(f.pkt)).client.expected);
  }

  lemma JointServer(d: Download, before: Course, ev: RE.Event)
    requires d.Valid() && Joint(d, After(d, before)) && Enabled(After(d, before), Server(ev))
    requires RecentClient(d.c, Then(ServerRun(before), ev))
    ensures Joint(d, Apply(d, After(d, before), Server(ev)))
  {
    hide BlockCount, E2E.ReceiverInv, RE.Step, AllTrue, AllSent, PrebuiltAgrees, Ahead;
    var s, run := After(d, before), ServerRun(before);
    ServerPart(d, before);
    RecentIsHonest(d.c, Then(run, ev));
    RunKeeps(d.c, Then(run, ev));
    ServerAhead(d.c, s.ses, ev, s.client.expected);
    if RE.Step(d.c, s.ses, ev).completed && !s.ses.completed {
      CompletedOnlyByFinalAck(d.c, run, ev);
      ExpectedBound(d, s);
    }
  }

  lemma ExpectedBound(d: Download, s: System)
    requires d.Valid() && Joint(d, s)
    ensures s.client.expected <= d.c.Total() + 1
  {
    hide BlockCount;
  }

  // ---- What a user relies on -----------------------------------------

  predicate Safe(d: Download, s: System)
    requires d.Valid()
  {
    // the client's file is a whole number of leading blocks
    && (exists n: nat | n <= d.c.Total() :: s.client.out == Prefix(d.c.file, d.c.blksize, n))
    // a client that has seen the end has the whole file
    && (s.client.status == Receiver.Complete ==> s.client.out == d.c.file)
    // and so has the client of a download the server counts as completed
    && (s.ses.completed ==> s.client.out == d.c.file)
  }

  lemma JointIsSafe(d: Download, s: System)
    requires d.Valid() && Joint(d, s)
    ensures Safe(d, s)
  {
    hide BlockCount, Inv, Ahead, E2E.BufferInv;
    PrefixWhole(d.c.file, d.c.blksize, d.c.Total());
    assert s.client.out == Prefix(d.c.file, d.c.blksize, s.client.expected - 1);
  }

  /** In every run in which ACKs are of the window and not older than 65535 blocks, and (beyond 65535
      blocks) frames are recent as well, the client's file is right and a completed download is whole. */
  lemma DownloadIsSafe(d: Download, run: Course)
    requires d.Valid() && Possible(d, run) && RecentClient(d.c, ServerRun(run))
    requires d.c.Total() <= 65535 || RecentFrames(d, run)
    ensures Safe(d, After(d, run))
  {
    hide BlockCount, Joint, Safe, Possible, RecentClient;
    JointInEveryRun(d, run);
    JointIsSafe(d, After(d, run));
  }

  // ---- Covered flushes need no assumption on ACKs --------------------

  /** How far the server has sent. */
  function Reach(d: Download, s: Session): int
    requires d.Valid()
  {
    if s.state == SendRrq then s.windowLast else d.c.Total()
  }

  lemma RaiseLimit(l: E2E.Link, r: Receiver.State, limit: int, limit': int)
    requires l.Valid() && E2E.ReceiverInv(l, r, limit) && limit <= limit' <= l.Total()
    ensures E2E.ReceiverInv(l, r, limit')
  {
    hide BlockCount, Slice, Prefix;
  }

  /** With covered flushes the client never gets beyond the window, so its ACKs stay within it. */
  lemma {:induction false} CoveredStaysInside(d: Download, run: Course)
    requires d.Valid() && Possible(d, run) && d.c.Total() <= 65535 && CoveredFlushes(d.c, ServerRun(run))
    ensures RecentClient(d.c, ServerRun(run)) && SentOnly(d.c, ServerRun(run))
    ensures var s := After(d, run);
            Joint(d, s) && Tidy(d.c, s.ses) && E2E.ReceiverInv(d.Link(), s.client, Reach(d, s.ses))
  {
    hide BlockCount, Prefix, RE.Step, Receiver.Step, Begin, Tidy, E2E.ReceiverInv, FlushEvent, Covered, Joint;
    match run {
      case Start(retrans, readable, preReadable) => InsideStarts(d, retrans, readable, preReadable);
      case Next(before, m) =>
        CoveredStaysInside(d, before);
        var s := After(d, before);
        match m
        case Server(ev) => InsideServer(d, before, ev);
        case Deliver(f) => InsideDeliver(d, s, f);
        case ClientTimeout => ClientIgnores(d, s, Timeout, Reach(d, s.ses));
        case StrayToClient(pkt) => ClientIgnores(d, s, Packet(pkt), Reach(d, s.ses));
    }
    JointInEveryRun(d, run);
  }

  lemma InsideStarts(d: Download, retrans: nat, readable: nat, preReadable: nat)
    requires d.Valid()
    ensures var s := Begin(d.c, retrans, readable, preReadable);
            Tidy(d.c, s) && E2E.ReceiverInv(d.Link(), Receiver.INIT, Reach(d, s))
  {
    hide BlockCount, AllTrue, AllSent, SendWindow, PrebuiltAgrees, Tidy;
    BeginTidy(d.c, retrans, readable, preReadable);
    BeginKeeps(d.c, retrans, readable, preReadable);
    assert d.Link().Written(0) == [];
  }

  /** What the client holds was sent, and is of the window. */
  lemma AckInside(d: Download, before: Course, ev: RE.Event)
    requires d.Valid() && Joint(d, After(d, before)) && d.c.Total() <= 65535
    requires RecentClient(d.c, ServerRun(before)) && SentOnly(d.c, ServerRun(before))
    requires var s := After(d, before);
             Enabled(s, Server(ev)) && E2E.ReceiverInv(d.Link(), s.client, Reach(d, s.ses))
    ensures RecentClient(d.c, Then(ServerRun(before), ev)) && SentOnly(d.c, Then(ServerRun(before), ev))
  {
    hide BlockCount, Prefix, AllTrue, PrebuiltAgrees, Ahead, E2E.BufferInv, Exec, After, FrameOf;
    var s := After(d, before);
    ServerPart(d, before);
    if ev.Ack? && s.ses.state == SendRrq && ev.block > 0 {
      assert FrameOf(d.c, ev.block) in s.ses.wire;
      var i :| 0 <= i < |s.ses.wire| && s.ses.wire[i] == FrameOf(d.c, ev.block);
      assert s.ses.wire[i].block == ev.block by { FrameBlock(d.c, ev.block); }
    }
  }

  lemma InsideServer(d: Download, before: Course, ev: RE.Event)
    requires d.Valid() && Joint(d, After(d, before)) && d.c.Total() <= 65535
    requires RecentClient(d.c, ServerRun(before)) && SentOnly(d.c, ServerRun(before))
    requires CoveredFlushes(d.c, Then(ServerRun(before), ev))
    requires var s := After(d, before);
             && Enabled(s, Server(ev)) && Tidy(d.c, s.ses)
             && E2E.ReceiverInv(d.Link(), s.client, Reach(d, s.ses))
    ensures RecentClient(d.c, Then(ServerRun(before), ev)) && SentOnly(d.c, Then(ServerRun(before), ev))
    ensures var s' := Apply(d, After(d, before), Server(ev));
            Tidy(d.c, s'.ses) && E2E.ReceiverInv(d.Link(), s'.client, Reach(d, s'.ses))
  {
    hide BlockCount, Prefix, RE.Step, Tidy, AllTrue, AllSent, PrebuiltAgrees, Ahead, FlushEvent, Covered;
    hide E2E.BufferInv, WasSent;
    var s, run := After(d, before), ServerRun(before);
    ServerPart(d, before);
    AckInside(d, before, ev);
    StepTidy(d.c, s.ses, ev);
    RecentIsHonest(d.c, Then(run, ev));
    RunKeeps(d.c, Then(run, ev));
    var s' := RE.Step(d.c, s.ses, ev);
    assert Exec(d.c, Then(run, ev)) == s';
    RaiseLimit(d.Link(), s.client, Reach(d, s.ses), Reach(d, s'));
  }

  lemma InsideDeliver(d: Download, s: System, f: Frame)
    requires d.Valid() && Joint(d, s) && d.c.Total() <= 65535 && Enabled(s, Deliver(f)) && Tidy(d.c, s.ses)
    requires E2E.ReceiverInv(d.Link(), s.client, Reach(d, s.ses))
    ensures E2E.ReceiverInv(d.Link(), Apply(d, s, Deliver(f)).client, Reach(d, s.ses))
  {
    hide BlockCount, Prefix, AllTrue, AllSent, PrebuiltAgrees, Receiver.Step, UpTo, QueueBytes, FramesOf,
        E2E.ReceiverInv;
    TrueFrame(d.c, s.ses.wire, f, s.client.expected + 2 * d.c.windowsize);
    if s.ses.state == SendRrq {
      TrueFrame(d.c, s.ses.wire, f, s.ses.windowLast);
    }
    ClientTakes(d, s, f, Reach(d, s.ses));
  }

  /** Up to 65535 blocks and with covered flushes a download is safe in every run, whatever the channel
      loses, repeats, reorders or delays in either direction. */
  lemma CoveredDownloadIsSafe(d: Download, run: Course)
    requires d.Valid() && Possible(d, run) && d.c.Total() <= 65535 && CoveredFlushes(d.c, ServerRun(run))
    ensures Safe(d, After(d, run))
  {
    hide BlockCount, Safe, Possible, RecentClient, Tidy, E2E.ReceiverInv, CoveredFlushes, Joint;
    CoveredStaysInside(d, run);
    JointIsSafe(d, After(d, run));
  }

  // ---- Downloads whose flushes are always covered --------------------

  /** One block at a time, no prebuild queue, or blocks too large for a packet. */
  predicate Benign(c: Config) {
    c.windowsize == 1 || !c.hasPrebuilt || c.blksize > 1998
  }

  lemma BenignCovered(c: Config, run: Run)
    requires c.Valid() && Benign(c) && SentOnly(c, run) && Regular(c, run)
    ensures CoveredFlushes(c, run)
  {
    hide SentOnly, Regular, CoveredFlushes, Exec, Lone;
    if c.windowsize == 1 {
      WindowOneCovered(c, run);
    } else {
      NeverFlushes(c, run);
    }
  }

  lemma {:induction false} BenignStaysInside(d: Download, run: Course)
    requires d.Valid() && Possible(d, run) && d.c.Total() <= 65535 && Benign(d.c) && Regular(d.c, ServerRun(run))
    ensures CoveredFlushes(d.c, ServerRun(run))
  {
    hide BlockCount, RE.Step, Receiver.Step, Begin, Tidy, E2E.ReceiverInv, FlushEvent, Covered, Joint, WasSent;
    if run.Next? {
      BenignStaysInside(d, run.before);
      if run.move.Server? {
        CoveredStaysInside(d, run.before);
        AckInside(d, run.before, run.move.ev);
        BenignCovered(d.c, Then(ServerRun(run.before), run.move.ev));
      }
    }
  }

  /** Up to 65535 blocks and with working reads, such a download is safe in every run, with no assumption on
      the channel, the timeouts or the flushes. */
  lemma BenignDownloadIsSafe(d: Download, run: Course)
    requires d.Valid() && Possible(d, run) && d.c.Total() <= 65535 && Benign(d.c) && Regular(d.c, ServerRun(run))
    ensures Safe(d, After(d, run))
  {
    hide BlockCount, Safe, Possible, CoveredFlushes, Regular;
    BenignStaysInside(d, run);
    CoveredDownloadIsSafe(d, run);
  }

  // ---- A client that catches up --------------------------------------

  /** The block the client waits for arrives. */
  lemma NextArrives(d: Download, s: System, top: nat)
    requires d.Valid() && Limits.Permitted(d.Link()) && d.c.Total() <= 65535 && top < d.c.Total()
    requires s.client.status == Receiver.Receiving && E2E.ReceiverInv(d.Link(), s.client, top)
    requires 1 <= s.client.expected <= top && AllSent(d.c, s.ses.wire, top)
    ensures var f := FrameOf(d.c, s.client.expected);
            var s' := Apply(d, s, Deliver(f));
            && Enabled(s, Deliver(f)) && s'.ses == s.ses
            && s'.client.status == Receiver.Receiving && E2E.ReceiverInv(d.Link(), s'.client, top)
            && s'.client.expected > s.client.expected
  {
    hide BlockCount, Slice, Prefix, PackData, Receiver.Step, E2E.ReceiverInv, AllSent;
    var n := s.client.expected;
    assert FrameOf(d.c, n) in s.ses.wire by { SentIs(d.c, s.ses.wire, top, n); }
    ClientTakes(d, s, FrameOf(d.c, n), top);
    AcceptGoesOn(d, s.client, top);
  }

  lemma SentIs(c: Config, wire: seq<Frame>, top: nat, n: nat)
    requires c.blksize > 0 && AllSent(c, wire, top) && 1 <= n <= top
    ensures FrameOf(c, n) in wire
  {
    hide FrameOf;
  }

  lemma AcceptGoesOn(d: Download, r: Receiver.State, top: nat)
    requires d.Valid() && Limits.Permitted(d.Link()) && d.c.Total() <= 65535 && top < d.c.Total()
    requires r.status == Receiver.Receiving && E2E.ReceiverInv(d.Link(), r, top) && 1 <= r.expected <= top
    ensures var r' := Receiver.Step(d.rcv, r, Packet(FrameOf(d.c, r.expected).pkt)).state;
            r'.status == Receiver.Receiving && r'.expected > r.expected
  {
    hide BlockCount, Slice, Prefix, PackData, Receiver.Step, FirstMatch, E2E.BufferInv;
    var l, n := d.Link(), r.expected;
    Receiver.DataStep(d.rcv, r, Wire(n), l.Block(n));
    OnlyMatch(n, n + d.c.windowsize - 1, n);
    PrefixStep(d.c.file, d.c.blksize, n);
    OnlyLastIsShort(d.c.file, d.c.blksize, n);
  }

  /** Frames up to block b arrive in turn, until the client holds everything up to b. */
  lemma {:induction false} CatchUp(d: Download, run: Course, b: nat, top: nat) returns (more: Course)
    requires d.Valid() && Limits.Permitted(d.Link()) && d.c.Total() <= 65535 && b <= top < d.c.Total()
    requires Possible(d, run)
    requires var s := After(d, run);
             && s.client.status == Receiver.Receiving && E2E.ReceiverInv(d.Link(), s.client, top)
             && AllSent(d.c, s.ses.wire, top)
    ensures Possible(d, more) && ServerRun(more) == ServerRun(run)
    ensures var s := After(d, more);
            && s.ses == After(d, run).ses && s.client.expected > b
            && s.client.status == Receiver.Receiving && E2E.ReceiverInv(d.Link(), s.client, top)
    decreases top + 1 - After(d, run).client.expected
  {
    hide BlockCount, Apply, Enabled, AllSent, Limits.Permitted, FrameOf;
    var s := After(d, run);
    assert 1 <= s.client.expected <= top + 1 by { ExpectedIn(d, s.client, top); }
    hide E2E.ReceiverInv;
    more := run;
    if s.client.expected <= b {
      NextArrives(d, s, top);
      var next := Next(run, Deliver(FrameOf(d.c, s.client.expected)));
      assert After(d, next) == Apply(d, s, Deliver(FrameOf(d.c, s.client.expected)));
      assert 1 <= After(d, next).client.expected <= top + 1 by { ExpectedIn(d, After(d, next).client, top); }
      more := CatchUp(d, next, b, top);
    }
  }

  lemma ExpectedIn(d: Download, r: Receiver.State, top: nat)
    requires d.Valid() && E2E.ReceiverInv(d.Link(), r, top)
    ensures 1 <= r.expected <= top + 1
  {
    hide BlockCount;
  }

  /** Every server run that goes on to the end, hears only ACKs of what was sent and covers its flushes is
      the server's part of a run with a client that receives. */
  lemma {:induction false} Realise(d: Download, srun: Run) returns (run: Course)
    requires d.Valid() && Limits.Permitted(d.Link()) && d.c.Total() <= 65535
    requires SentOnly(d.c, srun) && CoveredFlushes(d.c, srun) && Midway(d.c, srun)
    ensures Possible(d, run) && ServerRun(run) == srun && After(d, run).client.status == Receiver.Receiving
  {
    hide BlockCount, RE.Step, Begin, FlushEvent, Covered, Limits.Permitted, WasSent;
    match srun
    case Started(retrans, readable, preReadable) => run := Start(retrans, readable, preReadable);
    case Then(before, ev) =>
      var first := Realise(d, before);
      run := RealiseNext(d, first, ev);
  }

  /** One more event of the server, after the client has caught up with the ACK it is to send. */
  lemma RealiseNext(d: Download, run: Course, ev: RE.Event) returns (more: Course)
    requires d.Valid() && Limits.Permitted(d.Link()) && d.c.Total() <= 65535 && Possible(d, run)
    requires SentOnly(d.c, Then(ServerRun(run), ev))
    requires CoveredFlushes(d.c, ServerRun(run)) && Midway(d.c, ServerRun(run))
    requires After(d, run).client.status == Receiver.Receiving
    ensures more.Next? && more.move == Server(ev) && Possible(d, more) && ServerRun(more) == Then(ServerRun(run), ev)
    ensures After(d, more).client.status == Receiver.Receiving
    ensures ServerRun(more.before) == ServerRun(run)
  {
    hide BlockCount, RE.Step, Begin, FlushEvent, Covered, Limits.Permitted, Tidy, E2E.ReceiverInv, Exec, Ahead, AllTrue;
    var s := After(d, run);
    ServerPart(d, run);
    var base := run;
    if ev.Ack? {
      CoveredStaysInside(d, run);
      MidwayBound(d, s);
      SentWithinWindow(d.c, ServerRun(run));
      HonestNext(d.c, ServerRun(run), ev);
      hide After, Possible;
      base := CatchUp(d, run, ev.block, s.ses.windowLast);
    }
    more := Next(base, Server(ev));
    OneServerMove(d, base, ev);
  }

  lemma OneServerMove(d: Download, run: Course, ev: RE.Event)
    requires Possible(d, run) && (ev.Ack? ==> ev.block < After(d, run).client.expected)
    ensures Possible(d, Next(run, Server(ev))) && ServerRun(Next(run, Server(ev))) == Then(ServerRun(run), ev)
    ensures After(d, Next(run, Server(ev))) == After(d, run).(ses := RE.Step(d.c, After(d, run).ses, ev))
  {
    hide RE.Step;
  }

  lemma MidwayBound(d: Download, s: System)
    requires d.Valid() && Joint(d, s) && s.ses.state == SendRrq && !s.ses.eof
    ensures s.ses.windowLast < d.c.Total() && AllSent(d.c, s.ses.wire, s.ses.windowLast)
  {
    hide BlockCount, AllTrue, PrebuiltAgrees, Ahead, E2E.ReceiverInv;
  }

  // ---- An overrun truncates the download -----------------------------

  /** The highest block that was sent. */
  function Top(fs: seq<Frame>): (n: nat)
    ensures UpTo(fs, n) && (n == 0 || exists f :: f in fs && f.block == n)
  {
    if fs == [] then 0
    else
      var n := Top(fs[..|fs| - 1]);
      if fs[|fs| - 1].block > n then fs[|fs| - 1].block else n
  }

  /** The flush at the end of a run is the first that is not covered. */
  predicate FirstOverrun(d: Download, run: Course) {
    && Possible(d, run) && run.Next? && run.move.Server?
    && CoveredFlushes(d.c, ServerRun(run.before)) && !CoveredFlushes(d.c, ServerRun(run))
  }

  /** Then everything up to the highest block sent was sent, the session believes it is further back and has
      more to send, and the client is in step. */
  lemma AfterOverrun(d: Download, run: Course)
    requires d.Valid() && d.c.Total() <= 65535 && FirstOverrun(d, run)
    ensures var s := After(d, run);
            var top := Top(s.ses.wire);
            && Inv(d.c, s.ses) && s.ses.state == SendRrq && s.ses.windowLast < top <= d.c.Total() && !s.ses.eof
            && AllSent(d.c, s.ses.wire, top) && E2E.ReceiverInv(d.Link(), s.client, top)
  {
    hide BlockCount, RE.Step, Begin, Tidy, E2E.ReceiverInv, Covered, AllTrue, PrebuiltAgrees, Ahead, Top, MapAck;
    hide WasSent;
    var before, ev := run.before, run.move.ev;
    var srun, s0, s := ServerRun(before), After(d, before), After(d, run);
    ServerPart(d, before);
    ServerPart(d, run);
    CoveredStaysInside(d, before);
    AckInside(d, before, ev);
    RecentIsHonest(d.c, Then(srun, ev));
    RunKeeps(d.c, Then(srun, ev));
    GaplessRun(d.c, Then(srun, ev));
    UncoveredOverruns(d.c, s0.ses, ev);
    TopIsBeyond(d, s0.ses, s.ses);
    RaiseLimit(d.Link(), s.client, Reach(d, s0.ses), Top(s.ses.wire));
  }

  lemma TopIsBeyond(d: Download, s0: Session, s: Session)
    requires d.Valid() && Inv(d.c, s0) && Inv(d.c, s) && Gapless(d.c, s) && s0.state == SendRrq && s0.preValid
    requires s.state == SendRrq && s.windowLast == s0.preLast && !Within(s)
    ensures var top := Top(s.wire);
            && s.windowLast < top <= d.c.Total() && AllSent(d.c, s.wire, top)
            && s0.windowLast <= top && !s.eof
  {
    hide BlockCount, FrameOf, AllSent, PrebuiltAgrees;
    PrebuiltContents(d.c, s0);
    var top := Top(s.wire);
    var f :| f in s.wire && f.block == top;
    TrueFrame(d.c, s.wire, f, top);
    GaplessTop(d.c, s.wire, f);
  }

  lemma GaplessTop(c: Config, wire: seq<Frame>, f: Frame)
    requires c.blksize > 0 && NoGaps(c, wire, 0) && f in wire
    ensures AllSent(c, wire, f.block)
  {
    hide FrameOf;
  }

  /** A client that has everything up to `top` takes an empty block under the next number for the end. */
  lemma EmptyBlockEnds(d: Download, r: Receiver.State, top: nat)
    requires d.Valid() && Limits.Permitted(d.Link()) && d.c.Total() <= 65535 && top < d.c.Total()
    requires r.status == Receiver.Receiving && E2E.ReceiverInv(d.Link(), r, top) && r.expected == top + 1
    ensures var r' := Receiver.Step(d.rcv, r, Packet(PackData(Wire(top + 1), []))).state;
            r'.status == Receiver.Complete && r'.out == Prefix(d.c.file, d.c.blksize, top)
  {
    hide BlockCount, Slice, Prefix, PackData, Receiver.Step, FirstMatch;
    Receiver.DataStep(d.rcv, r, Wire(top + 1), []);
    OnlyMatch(top + 1, top + d.c.windowsize, top + 1);
    PrefixStep(d.c.file, d.c.blksize, top + 1);
    assert r.out + [] == r.out;
  }

  lemma PartIsNotAll(c: Config, top: nat)
    requires c.Valid() && top < c.Total() && top * c.blksize < |c.file|
    ensures Prefix(c.file, c.blksize, top) != c.file
  {
    hide BlockCount;
    PrefixWhole(c.file, c.blksize, top);
  }

  /** From every run that ends in the first flush that is not covered, with the client still receiving and
      data left beyond what was sent, the download can end with the client taking part of the file for all
      of it. */
  lemma OverrunTruncates(d: Download, run: Course) returns (more: Course)
    requires d.Valid() && Limits.Permitted(d.Link()) && d.c.Total() <= 65535 && FirstOverrun(d, run)
    requires After(d, run).client.status == Receiver.Receiving
    requires Top(After(d, run).ses.wire) < d.c.Total() && Top(After(d, run).ses.wire) * d.c.blksize < |d.c.file|
    ensures Possible(d, more) && (Regular(d.c, ServerRun(run)) ==> Regular(d.c, ServerRun(more)))
    ensures var s := After(d, more);
            s.client.status == Receiver.Complete && s.client.out != d.c.file && !Safe(d, s)
  {
    hide BlockCount, RE.Step, E2E.ReceiverInv, Top, Prefix, Limits.Permitted, Inv, AllSent, After, Possible;
    hide PackData, Receiver.Step, Regular, Safe;
    AfterOverrun(d, run);
    var top := Top(After(d, run).ses.wire);
    var caught := CatchUp(d, run, top, top);
    assert After(d, caught).client.expected == top + 1 by { ExpectedIn(d, After(d, caught).client, top); }
    more := EmptyBlockTruncates(d, caught, top);
  }

  /** With the client at the highest block sent, its own ACK brings the empty block that ends the download. */
  lemma EmptyBlockTruncates(d: Download, run: Course, top: nat) returns (more: Course)
    requires d.Valid() && Limits.Permitted(d.Link()) && d.c.Total() <= 65535 && Possible(d, run)
    requires top < d.c.Total() && top * d.c.blksize < |d.c.file|
    requires var s := After(d, run);
             && Inv(d.c, s.ses) && s.ses.state == SendRrq && !s.ses.eof && s.ses.windowLast < top
             && s.client.status == Receiver.Receiving && s.client.expected == top + 1
             && E2E.ReceiverInv(d.Link(), s.client, top)
    ensures Possible(d, more) && (Regular(d.c, ServerRun(run)) ==> Regular(d.c, ServerRun(more)))
    ensures var s := After(d, more);
            s.client.status == Receiver.Complete && s.client.out != d.c.file && !Safe(d, s)
  {
    hide BlockCount, RE.Step, E2E.ReceiverInv, Prefix, Limits.Permitted, Inv, After, Possible, PackData, Receiver.Step;
    var w, s := d.c.windowsize, After(d, run);
    OneServerMove(d, run, RE.Ack(top, w, w));
    var acked := Next(run, Server(RE.Ack(top, w, w)));
    assert Wire(top) == top;
    BeyondWindow(d.c, s.ses, top);
    var f := Frame(U32(TWO32 - 65535 + top), PackData(Wire(top + 1), []));
    more := Next(acked, Deliver(f));
    OneDelivery(d, acked, f);
    EmptyBlockEnds(d, s.client, top);
    PartIsNotAll(d.c, top);
  }

  /** The believed ACK brings the empty block. */
  lemma BeyondWindow(c: Config, s: Session, top: word)
    requires c.Valid() && Inv(c, s) && s.state == SendRrq && !s.eof && s.windowLast < top
    ensures var s' := RE.Step(c, s, RE.Ack(top, c.windowsize, c.windowsize));
            Frame(U32(TWO32 - 65535 + top), PackData(Wire(top + 1), [])) in s'.wire
  {
    hide BlockCount, OnAck, Inv, PackData;
    assert Wire(top) == top;
    EmptyBlockFollows(c, s, top, c.windowsize, c.windowsize);
    var s' := RE.Step(c, s, RE.Ack(top, c.windowsize, c.windowsize));
    assert s'.wire[|s.wire|] == Frame(U32(TWO32 - 65535 + top), PackData(Wire(top + 1), []));
  }

  lemma OneDelivery(d: Download, run: Course, f: Frame)
    requires Possible(d, run) && After(d, run).client.status == Receiver.Receiving && f in After(d, run).ses.wire
    ensures Possible(d, Next(run, Deliver(f))) && ServerRun(Next(run, Deliver(f))) == ServerRun(run)
    ensures var s := After(d, run);
            After(d, Next(run, Deliver(f))) == s.(client := Receiver.Step(d.rcv, s.client, Packet(f.pkt)).state)
  {
    hide Receiver.Step;
  }

  // ---- For every configuration ---------------------------------------

  lemma {:induction false} TopWithin(fs: seq<Frame>, most: int)
    requires most >= 0 && UpTo(fs, most)
    ensures Top(fs) <= most
  {
    if fs != [] {
      TopWithin(fs[..|fs| - 1], most);
    }
  }

  /** After the flush the highest block sent is no more than two windows beyond the position before it. */
  lemma TopIsNear(d: Download, run: Course)
    requires d.Valid() && d.c.Total() <= 65535 && FirstOverrun(d, run)
    ensures var s := After(d, run.before).ses;
            Top(After(d, run).ses.wire) <= s.nextBlock + 2 * d.c.windowsize
  {
    hide BlockCount, RE.Step, Begin, E2E.ReceiverInv, Covered, Top, MapAck, WasSent, FramesOf, QueueBytes;
    var before, ev := run.before, run.move.ev;
    var s := After(d, before).ses;
    ServerPart(d, before);
    CoveredStaysInside(d, before);
    AckInside(d, before, ev);
    UncoveredOverruns(d.c, s, ev);
    NearBoth(d.c, s);
    TopWithin(s.wire + s.prebuilt, s.nextBlock + 2 * d.c.windowsize);
  }

  lemma NearBoth(c: Config, s: Session)
    requires c.Valid() && Inv(c, s) && s.state == SendRrq && Tidy(c, s)
    requires UpTo(s.prebuilt, s.nextBlock + 2 * c.windowsize)
    ensures UpTo(s.wire + s.prebuilt, s.nextBlock + 2 * c.windowsize)
  {
    hide BlockCount, AllTrue, AllSent, PrebuiltAgrees, QueueBytes, FramesOf;
  }

  /** With a window above one block, every permitted download that is long enough has a run, with working
      reads, after which the client takes part of the file for all of it. */
  lemma LeftoversTruncate(d: Download) returns (run: Course)
    requires d.Valid() && Long(d.c) && Limits.Permitted(d.Link()) && d.c.Total() <= 65535
    ensures Possible(d, run) && Regular(d.c, ServerRun(run))
    ensures var s := After(d, run);
            s.client.status == Receiver.Complete && s.client.out != d.c.file && !Safe(d, s)
  {
    hide BlockCount, Singles, Regular, SentOnly, HonestClient, AlwaysWithin, Limits.Permitted, After, Top, Possible;
    var srun := LeftoversOverrun(d.c);
    assert SentOnly(d.c, srun.before) by { SentBefore(d.c, srun); }
    var first := Realise(d, srun.before);
    var full := RealiseNext(d, first, srun.ev);
    assert FirstOverrun(d, full) by { assert ServerRun(full) == srun; }
    TopIsNear(d, full);
    ServerPart(d, full.before);
    assert Top(After(d, full).ses.wire) + 1 < d.c.Total();
    FullBlocks(|d.c.file|, d.c.blksize, Top(After(d, full).ses.wire) + 1);
    OneLess(Top(After(d, full).ses.wire), d.c.blksize);
    run := OverrunTruncates(d, full);
  }

  lemma SentBefore(c: Config, run: Run)
    requires run.Then? && SentOnly(c, run)
    ensures SentOnly(c, run.before)
  {
    hide Exec;
  }

  /** Up to 65535 blocks and with working reads, a permitted download that is long enough is safe in every run
      exactly when it goes one block at a time, has no prebuild queue, or cannot send its blocks at all. */
  lemma DownloadSafeIff(d: Download)
    requires d.Valid() && Limits.Permitted(d.Link()) && Singles(d.c) + 2 * d.c.windowsize + 2 < d.c.Total() <= 65535
    ensures (forall run | Possible(d, run) && Regular(d.c, ServerRun(run)) :: Safe(d, After(d, run))) <==> Benign(d.c)
  {
    hide BlockCount, Singles, Regular, Safe, Possible, Limits.Permitted, After;
    if Benign(d.c) {
      forall run | Possible(d, run) && Regular(d.c, ServerRun(run)) ensures Safe(d, After(d, run)) {
        BenignDownloadIsSafe(d, run);
      }
    } else {
      var run := LeftoversTruncate(d);
    }
  }
}
