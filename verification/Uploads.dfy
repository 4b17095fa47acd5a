/** A C upload joined to a sending client by a channel that loses, repeats and reorders. The client runs
    the send loop of `Sender`. */
module Uploads {
  import opened Blocks
  import opened Protocol
  import opened Wrappers
  import opened UE = UploadEngine
  import RE = ReadEngine
  import Sender

  /** Both ends use the negotiated block size. */
  datatype Transfer = Transfer(p: Policy, snd: Sender.Job) {
    predicate Valid() {
      snd.Valid() && p.blksize == snd.blksize
    }

    function Total(): (n: nat)
      requires Valid()
      ensures n > 0
    {
      snd.Total()
    }

    function Block(n: nat): seq<byte>
      requires Valid() && n > 0
    {
      Slice(snd.data, snd.blksize, n)
    }
  }

  /** `sent` is the highest block the client has sent. */
  datatype System = System(u: Upload, client: Sender.State, sent: int)

  datatype Move =
    | DeliverData(block: nat, writeOk: bool, commitOk: bool)
    | ServerTimer
    | ClientAborts
    | DeliverAck(ack: word)
    | ClientTimeout
    | StrayToClient(pkt: seq<byte>)

  datatype Course = Begin(ackZero: bool) | Next(before: Course, move: Move)

  /** Any block sent so far may arrive, and so may any ACK. */
  predicate Enabled(s: System, m: Move) {
    match m
    case DeliverData(b, _, _) => 1 <= b <= s.sent
    case DeliverAck(a) => s.client.status == Sender.Sending && a in s.u.acks
    case ClientTimeout => s.client.status == Sender.Sending
    case StrayToClient(pkt) => s.client.status == Sender.Sending && !Decode(pkt).Ack?
    case _ => true
  }

  function AtClient(t: Transfer, s: System, ev: Protocol.Event): System
    requires t.Valid()
  {
    var n := Sender.Step(t.snd, s.client, ev);
    var end := Sender.WindowEnd(t.snd, n.lastAck);
    s.(client := n, sent := if end > s.sent then end else s.sent)
  }

  function ServerEvent(t: Transfer, m: Move): Option<UE.Event>
    requires t.Valid()
  {
    match m
    case DeliverData(b, writeOk, commitOk) =>
      if b > 0 then Some(UE.Block(Wire(b), t.Block(b), writeOk, commitOk)) else None
    case ServerTimer => Some(UE.Timer)
    case ClientAborts => Some(UE.ClientError)
    case _ => None
  }

  function Apply(t: Transfer, s: System, m: Move): System
    requires t.Valid()
  {
    match m
    case DeliverAck(a) => AtClient(t, s, Packet(PackAck(a)))
    case ClientTimeout => AtClient(t, s, Timeout)
    case StrayToClient(pkt) => AtClient(t, s, Packet(pkt))
    case _ =>
      var ev := ServerEvent(t, m);
      if ev.Some? then s.(u := UE.Step(t.p, s.u, ev.value)) else s
  }

  function After(t: Transfer, run: Course): System
    requires t.Valid()
  {
    match run
    case Begin(ackZero) => System(Opened(ackZero), Sender.INIT, Sender.WindowEnd(t.snd, 0))
    case Next(before, m) => Apply(t, After(t, before), m)
  }

  predicate Possible(t: Transfer, run: Course)
    requires t.Valid()
  {
    run.Next? ==> Possible(t, run.before) && Enabled(After(t, run.before), run.move)
  }

  /** The server's part of a run. */
  function ServerRun(t: Transfer, run: Course): UE.Run
    requires t.Valid()
  {
    match run
    case Begin(ackZero) => UE.Start(ackZero)
    case Next(before, m) =>
      var ev := ServerEvent(t, m);
      if ev.Some? then UE.Run.Then(ServerRun(t, before), ev.value) else ServerRun(t, before)
  }

  /** What the server hears are blocks of the file. */
  lemma {:induction false} ServerPart(t: Transfer, run: Course)
    requires t.Valid() && Possible(t, run)
    ensures After(t, run).u == UE.Exec(t.p, ServerRun(t, run))
    ensures FromFile(t.p, t.snd.data, ServerRun(t, run)) && After(t, run).sent <= t.Total()
  {
    hide BlockCount, Slice, UE.Step, Sender.Step;
    if run.Next? {
      ServerPart(t, run.before);
      if run.move.DeliverData? {
        var ev := ServerEvent(t, run.move).value;
        assert IsBlock(t.p, t.snd.data, ev, run.move.block);
      }
    }
  }

  // ---- A finished client means a whole file --------------------------

  /** The client has had no block acknowledged that is not written. */
  predicate InStep(t: Transfer, s: System)
    requires t.Valid()
  {
    && s.client.lastAck <= |s.u.accepted|
    && (s.client.status == Sender.Finished ==> s.client.lastAck == t.Total())
    && s.client.lastAck <= t.Total()
  }

  lemma AcceptedGrows(p: Policy, u: Upload, ev: UE.Event)
    ensures |UE.Step(p, u, ev).accepted| >= |u.accepted|
  {
    hide MapBlock, RE.U32;
  }

  lemma SmallWire(n: nat)
    requires n < WRAP
    ensures Wire(n) == n
  {
  }

  /** An ACK of a written block is credited to that block. */
  lemma AckInStep(t: Transfer, s: System, a: word)
    requires t.Valid() && t.Total() <= 65535 && InStep(t, s) && s.client.status == Sender.Sending && a <= |s.u.accepted|
    ensures InStep(t, AtClient(t, s, Packet(PackAck(a))))
  {
    hide BlockCount, FirstMatch, Sender.Step, PackAck, Wire;
    Sender.AckStep(t.snd, s.client, a);
    var m := FirstMatch(s.client.lastAck + 1, Sender.WindowEnd(t.snd, s.client.lastAck), a);
    if m.Some? {
      SmallWire(m.value);
    }
  }

  lemma {:induction false} AlwaysInStep(t: Transfer, run: Course)
    requires t.Valid() && Possible(t, run) && t.Total() <= 65535
    ensures InStep(t, After(t, run))
  {
    hide BlockCount, Prefix, UE.Step, Sender.Step, Slice;
    if run.Next? {
      AlwaysInStep(t, run.before);
      var s, m := After(t, run.before), run.move;
      ServerPart(t, run.before);
      match m
      case DeliverAck(a) =>
        AcksAreWritten(t, run.before);
        AckInStep(t, s, a);
      case ClientTimeout => Sender.QuietStep(t.snd, s.client, Timeout);
      case StrayToClient(pkt) => Sender.QuietStep(t.snd, s.client, Packet(pkt));
      case _ =>
        if ServerEvent(t, m).Some? {
          AcceptedGrows(t.p, s.u, ServerEvent(t, m).value);
        }
    }
  }

  lemma AcksAreWritten(t: Transfer, run: Course)
    requires t.Valid() && Possible(t, run) && t.Total() <= 65535
    ensures var u := After(t, run).u; forall i | 0 <= i < |u.acks| :: u.acks[i] <= |u.accepted|
  {
    hide BlockCount, Prefix, UE.Step, Sender.Step, Slice, Contents, Ending;
    ServerPart(t, run);
    UploadInvariant(t.p, ServerRun(t, run));
    SmallUploadIsPrefix(t.p, t.snd.data, ServerRun(t, run));
  }

  /** Up to 65535 blocks, in every run, a client that has finished has had the whole file written. */
  lemma FinishedMeansWritten(t: Transfer, run: Course)
    requires t.Valid() && Possible(t, run) && t.Total() <= 65535
    ensures var s := After(t, run); s.client.status == Sender.Finished ==> s.u.file == t.snd.data
  {
    hide BlockCount, Prefix, UE.Step, Sender.Step, Slice;
    AlwaysInStep(t, run);
    ServerPart(t, run);
    SmallUploadIsPrefix(t.p, t.snd.data, ServerRun(t, run));
    PrefixWhole(t.snd.data, t.snd.blksize, t.Total());
  }

  // ---- Block by block ------------------------------------------------

  /** Each of the blocks 1..n is delivered and acknowledged in turn. */
  function Pairwise(t: Transfer, n: nat): Course
    requires t.Valid()
  {
    if n == 0 then Begin(true)
    else Next(Next(Pairwise(t, n - 1), DeliverData(n, true, true)), DeliverAck(Wire(n)))
  }

  /** Both ends after n blocks. */
  predicate Together(t: Transfer, s: System, n: nat)
    requires t.Valid()
  {
    && s.client == Sender.State(n, 0, Sender.Sending) && s.sent >= Sender.WindowEnd(t.snd, n)
    && s.u.state == UE.Receiving && s.u.nextBlock == n + 1 && |s.u.accepted| == n
    && s.u.file == Prefix(t.snd.data, t.snd.blksize, n)
  }

  /** The next block is written and its ACK goes out. */
  lemma NextIsWritten(t: Transfer, s: System, n: nat, commitOk: bool)
    requires t.Valid() && t.p.maxSize == 0 && n + 65537 < RE.TWO32 && n < t.Total() && Together(t, s, n)
    ensures var u := UE.Step(t.p, s.u, UE.Block(Wire(n + 1), t.Block(n + 1), true, commitOk));
            && u.nextBlock == n + 2 && |u.accepted| == n + 1 && u.file == Prefix(t.snd.data, t.snd.blksize, n + 1)
            && Wire(n + 1) in u.acks
            && (n + 1 < t.Total() ==> u.state == UE.Receiving)
            && (n + 1 == t.Total() ==> u.result == if commitOk then Committed else CommitFailed)
  {
    hide BlockCount, Slice, Prefix, MapBlock;
    NextIsRecognised(n + 1);
    OnlyLastIsShort(t.snd.data, t.snd.blksize, n + 1);
    PrefixStep(t.snd.data, t.snd.blksize, n + 1);
    var u := UE.Step(t.p, s.u, UE.Block(Wire(n + 1), t.Block(n + 1), true, commitOk));
    assert u.acks[|s.u.acks|] == Wire(n + 1);
  }

  /** Its ACK moves the client on. */
  lemma NextIsCredited(t: Transfer, s: System, from: nat, n: nat)
    requires t.Valid() && s.client == Sender.State(from, 0, Sender.Sending)
    requires from < n <= Sender.WindowEnd(t.snd, from) && n - from <= WRAP
    ensures AtClient(t, s, Packet(PackAck(Wire(n)))).client
         == Sender.State(n, 0, if n < t.Total() then Sender.Sending else Sender.Finished)
  {
    hide BlockCount, FirstMatch, Sender.Step, PackAck;
    Sender.AckStep(t.snd, s.client, Wire(n));
    OnlyMatch(from + 1, Sender.WindowEnd(t.snd, from), n);
  }

  lemma TogetherRound(t: Transfer, s: System, n: nat)
    requires t.Valid() && t.p.maxSize == 0 && n + 65537 < RE.TWO32 && n + 1 < t.Total() && Together(t, s, n)
    ensures var d, a := DeliverData(n + 1, true, true), DeliverAck(Wire(n + 1));
            var s1 := Apply(t, s, d);
            Enabled(s, d) && Enabled(s1, a) && Together(t, Apply(t, s1, a), n + 1)
  {
    hide BlockCount, Slice, Prefix, UE.Step, Sender.Step;
    NextIsWritten(t, s, n, true);
    NextIsCredited(t, Apply(t, s, DeliverData(n + 1, true, true)), n, n + 1);
  }

  lemma {:induction false} PairwiseRuns(t: Transfer, n: nat)
    requires t.Valid() && t.p.maxSize == 0 && n + 65537 < RE.TWO32 && n < t.Total()
    ensures Possible(t, Pairwise(t, n)) && Together(t, After(t, Pairwise(t, n)), n)
  {
    hide BlockCount, Apply, Enabled, Together;
    if n == 0 {
      TogetherStarts(t);
    } else {
      PairwiseRuns(t, n - 1);
      TogetherRound(t, After(t, Pairwise(t, n - 1)), n - 1);
      var half := Next(Pairwise(t, n - 1), DeliverData(n, true, true));
      assert Possible(t, half) && Pairwise(t, n) == Next(half, DeliverAck(Wire(n)));
    }
  }

  lemma TogetherStarts(t: Transfer)
    requires t.Valid()
    ensures Together(t, After(t, Begin(true)), 0)
  {
    PrefixZero(t.snd.data, t.snd.blksize);
  }

  /** The ACK of the last block goes out before the commit, so the client finishes also when that fails. */
  lemma FinishedBeforeCommit(t: Transfer)
    requires t.Valid() && t.p.maxSize == 0 && t.Total() + 65537 < RE.TWO32
    ensures var n := t.Total();
            var run := Next(Next(Pairwise(t, n - 1), DeliverData(n, true, false)), DeliverAck(Wire(n)));
            && Possible(t, run)
            && After(t, run).client.status == Sender.Finished && After(t, run).u.result == CommitFailed
  {
    hide BlockCount, Slice, Prefix, UE.Step, Sender.Step;
    var n := t.Total();
    PairwiseRuns(t, n - 1);
    var s := After(t, Pairwise(t, n - 1));
    NextIsWritten(t, s, n - 1, false);
    NextIsCredited(t, Apply(t, s, DeliverData(n, true, false)), n - 1, n);
    assert Possible(t, Next(Pairwise(t, n - 1), DeliverData(n, true, false)));
  }

  // ---- A block lost before the boundary ------------------------------

  const LOST := 65535

  /** All blocks but block 65535 arrive, one after the other. */
  function Skipping(t: Transfer, b: nat): Course
    requires t.Valid()
  {
    if b <= LOST then Pairwise(t, LOST - 1)
    else Next(Next(Skipping(t, b - 1), DeliverData(b, true, true)), DeliverAck(Wire(b)))
  }

  /** The client is through with block b while the server still waits for block 65535. */
  predicate Skipped(t: Transfer, s: System, b: nat)
    requires t.Valid()
  {
    && s.client == Sender.State(if b <= LOST then LOST - 1 else b, 0,
                                if b < t.Total() then Sender.Sending else Sender.Finished)
    && s.sent >= Sender.WindowEnd(t.snd, s.client.lastAck)
    && s.u.state == UE.Receiving && s.u.nextBlock == LOST && |s.u.accepted| == LOST - 1
    && s.u.file == Prefix(t.snd.data, t.snd.blksize, LOST - 1)
  }

  /** A block beyond the boundary is acknowledged and not written. */
  lemma BeyondIsAcknowledged(t: Transfer, u: Upload, b: nat)
    requires t.Valid() && u.state == UE.Receiving && u.nextBlock == LOST && LOST < b <= 131070
    ensures UE.Step(t.p, u, UE.Block(Wire(b), t.Block(b), true, true)) == u.(acks := u.acks + [Wire(b)])
  {
    hide BlockCount, Slice;
    AheadExact(LOST, b);
    BeyondNumber(b);
    hide MapBlock;
  }

  lemma BeyondNumber(b: nat)
    requires LOST < b <= 131070
    ensures Wire(b) < Wire(LOST)
  {
  }

  lemma SkipRound(t: Transfer, s: System, b: nat)
    requires t.Valid() && t.snd.windowsize >= 2 && LOST < b <= t.Total() <= 131070 && Skipped(t, s, b - 1)
    ensures var d, a := DeliverData(b, true, true), DeliverAck(Wire(b));
            var s1 := Apply(t, s, d);
            Enabled(s, d) && Enabled(s1, a) && Skipped(t, Apply(t, s1, a), b)
  {
    hide BlockCount, Slice, Prefix, UE.Step, Sender.Step;
    BeyondIsAcknowledged(t, s.u, b);
    var s1 := Apply(t, s, DeliverData(b, true, true));
    assert s1.u.acks[|s.u.acks|] == Wire(b);
    NextIsCredited(t, s1, s.client.lastAck, b);
  }

  lemma {:induction false} SkippingRuns(t: Transfer, b: nat)
    requires t.Valid() && t.p.maxSize == 0 && t.snd.windowsize >= 2
    requires LOST <= b <= t.Total() && LOST < t.Total() <= 131070
    ensures Possible(t, Skipping(t, b)) && Skipped(t, After(t, Skipping(t, b)), b)
    decreases b
  {
    hide BlockCount, Apply, Enabled, Skipped;
    if b == LOST {
      PairwiseRuns(t, LOST - 1);
      SkipStarts(t, After(t, Pairwise(t, LOST - 1)));
    } else {
      SkippingRuns(t, b - 1);
      SkipRound(t, After(t, Skipping(t, b - 1)), b);
      var half := Next(Skipping(t, b - 1), DeliverData(b, true, true));
      assert Possible(t, half) && Skipping(t, b) == Next(half, DeliverAck(Wire(b)));
    }
  }

  lemma SkipStarts(t: Transfer, s: System)
    requires t.Valid() && LOST < t.Total() && Together(t, s, LOST - 1)
    ensures Skipped(t, s, LOST)
  {
    hide BlockCount, Prefix;
  }

  /** For every window above one block and every file of 65536 to 131070 blocks, when block 65535 is lost
      once and all others arrive in order, the client finishes while the server has written nothing since. */
  lemma LostBlockFinishesEarly(t: Transfer)
    requires t.Valid() && t.p.maxSize == 0 && t.snd.windowsize >= 2 && 65536 <= t.Total() <= 131070
    ensures var run := Skipping(t, t.Total());
            var s := After(t, run);
            && Possible(t, run) && s.client.status == Sender.Finished
            && s.u.state == UE.Receiving && s.u.file == Prefix(t.snd.data, t.snd.blksize, LOST - 1) != t.snd.data
  {
    hide BlockCount, Prefix;
    SkippingRuns(t, t.Total());
    PrefixWhole(t.snd.data, t.snd.blksize, LOST - 1);
    FullBlocks(|t.snd.data|, t.snd.blksize, LOST);
  }
}
