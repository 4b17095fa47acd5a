/** How far the end-to-end guarantee goes: what ends an upload, that transfers can complete,
    and that the two bounds of the safety theorems cannot be relaxed. */
module EndToEndLimits {
  import opened Blocks
  import opened Protocol
  import opened Wrappers
  import opened EndToEnd
  import Sender
  import Receiver

  // ---- Leaving the receive loop --------------------------------------

  /** Every block is on disk but the loop is still waiting for one. */
  predicate Stranded(l: Link, s: System)
    requires l.Valid()
  {
    s.rcv.status == Receiver.Receiving && s.rcv.expected == l.Total() + 1
  }

  lemma {:induction false} DrainPassesOnlyBuffered(r: Receiver.State, k: int)
    requires r.expected <= k < Receiver.Drain(r).expected
    ensures k in r.buffer
    decreases |r.buffer|
  {
    if r.expected in r.buffer && r.expected < k {
      var out := r.out + r.buffer[r.expected];
      DrainPassesOnlyBuffered(r.(expected := r.expected + 1, buffer := r.buffer - {r.expected}, out := out), k);
    }
  }

  /** The step that takes the receiver past the last block ends the loop exactly when the last
      block was not already waiting in the reorder buffer. */
  predicate EndsAsItShould(l: Link, r: Receiver.State, r': Receiver.State)
    requires l.Valid()
  {
    r.expected <= l.Total() && r'.expected == l.Total() + 1 && r'.status != Receiver.Failed
    ==> (r'.status == Receiver.Complete <==> l.Total() !in r.buffer)
  }

  lemma AcceptCompletes(l: Link, r: Receiver.State, limit: int)
    requires l.Valid() && ReceiverInv(l, r, limit) && r.status == Receiver.Receiving && r.expected <= l.Total()
    ensures EndsAsItShould(l, r, Receiver.Accept(l.rcv, r, l.Block(r.expected)).state)
  {
    OnlyLastIsShort(l.snd.data, l.snd.blksize, r.expected);
    var r1 := r.(expected := r.expected + 1, out := r.out + l.Block(r.expected));
    if r.expected < l.Total() < Receiver.Drain(r1).expected {
      DrainPassesOnlyBuffered(r1, l.Total());
    }
  }

  lemma OnDataCompletes(l: Link, r: Receiver.State, block: nat, limit: int)
    requires l.Valid() && ReceiverInv(l, r, limit) && r.status == Receiver.Receiving && 1 <= block <= limit
    requires var m := FirstMatch(r.expected, r.expected + l.rcv.windowsize - 1, Wire(block));
             m.Some? && m.value != block ==> m.value > WRAP && l.Total() < WRAP
    ensures EndsAsItShould(l, r, Receiver.OnData(l.rcv, r, Wire(block), l.Block(block)).state)
  {
    hide BlockCount, Slice, Prefix, Receiver.Accept;
    if block == r.expected {
      AcceptCompletes(l, r, limit);
    }
  }

  lemma CompletionExact(l: Link, s: System, f: Flight)
    requires l.Valid() && Inv(l, s) && Enabled(s, DeliverData(f)) && Unambiguous(l, s, DeliverData(f))
    ensures EndsAsItShould(l, s.rcv, Apply(l, s, DeliverData(f)).rcv)
  {
    hide BlockCount, Slice, Prefix, PackData, PackAck, Decode, Receiver.Step, Receiver.OnData;
    DataReadBack(l, s, f);
    Receiver.DataStep(l.rcv, s.rcv, Wire(f.block), l.Block(f.block));
    OnDataCompletes(l, s.rcv.(retries := 0), f.block, Sender.WindowEnd(l.snd, s.snd.lastAck));
  }

  /** A stranded loop takes no block for the one it waits for: none has its number but a block of the next cycle. */
  lemma StrandedData(l: Link, r: Receiver.State, block: nat)
    requires l.Valid() && r.status == Receiver.Receiving && r.expected == l.Total() + 1 && 1 <= block <= l.Total()
    requires var m := FirstMatch(r.expected, r.expected + l.rcv.windowsize - 1, Wire(block));
             m.Some? && m.value != block ==> m.value > WRAP && l.Total() < WRAP
    ensures var r' := Receiver.OnData(l.rcv, r, Wire(block), l.Block(block)).state;
            r'.status == Receiver.Receiving && r'.expected == l.Total() + 1
  {
    hide BlockCount, Slice, Prefix, Receiver.Accept;
  }

  /** Nothing the channel can deliver ends a stranded receive loop by end of file. */
  lemma StrandedStep(l: Link, s: System, m: Move)
    requires l.Valid() && Inv(l, s) && Stranded(l, s) && Enabled(s, m) && Unambiguous(l, s, m)
    ensures var s' := Apply(l, s, m); Stranded(l, s') || s'.rcv.status == Receiver.Failed
  {
    hide BlockCount, Slice, Prefix, PackData, PackAck, Decode, Receiver.Step, Receiver.OnData, Sender.Step, FirstMatch;
    match m
    case DeliverData(f) =>
      DataReadBack(l, s, f);
      Receiver.DataStep(l.rcv, s.rcv, Wire(f.block), l.Block(f.block));
      StrandedData(l, s.rcv.(retries := 0), f.block);
    case ReceiverTimeout => Receiver.QuietStep(l.rcv, s.rcv, Timeout);
    case StrayToReceiver(pkt) => Receiver.QuietStep(l.rcv, s.rcv, Packet(pkt));
    case _ =>
  }

  /** `run` continues `prefix`. */
  predicate Extends(run: Run, prefix: Run) {
    run == prefix || (run.Then? && Extends(run.before, prefix))
  }

  /** Once stranded, an upload stays stranded until it gives up: it never completes, although
      the whole file is on disk. */
  lemma {:induction false} StrandedForever(l: Link, prefix: Run, run: Run)
    requires l.Valid() && Runnable(l, run) && Extends(run, prefix)
    requires l.Total() < WRAP || (l.snd.windowsize < WRAP && AllRecent(l, run))
    requires Stranded(l, Exec(l, prefix))
    ensures var s := Exec(l, run); Stranded(l, s) || s.rcv.status == Receiver.Failed
  {
    if run != prefix {
      StrandedForever(l, prefix, run.before);
      RunInv(l, run.before);
      var s := Exec(l, run.before);
      if Stranded(l, s) {
        StrandedStep(l, s, run.move);
      } else {
        assert run.move.SenderTimeout? || run.move.DeliverAck? || run.move.StrayToSender?;
      }
    }
  }

  /** With a window of 1 nothing is ever buffered, and of a single block there is nothing to buffer. */
  predicate NothingToBuffer(l: Link)
    requires l.Valid()
  {
    l.snd.windowsize == 1 || l.Total() == 1
  }

  lemma LastNotBuffered(l: Link, s: System)
    requires l.Valid() && NothingToBuffer(l) && Inv(l, s) && !Stranded(l, s) && s.rcv.status == Receiver.Receiving
    ensures s.rcv.expected <= l.Total() && l.Total() !in s.rcv.buffer
  {
  }

  lemma NothingStrandsStep(l: Link, s: System, m: Move)
    requires l.Valid() && NothingToBuffer(l) && Inv(l, s) && !Stranded(l, s) && Enabled(s, m) && Unambiguous(l, s, m)
    ensures !Stranded(l, Apply(l, s, m))
  {
    hide BlockCount, Slice, Prefix, PackData, PackAck, Decode, Receiver.Step, Inv;
    match m
    case DeliverData(f) =>
      assert s.rcv.expected <= l.Total() && l.Total() !in s.rcv.buffer by { LastNotBuffered(l, s); }
      CompletionExact(l, s, f);
    case ReceiverTimeout => Receiver.QuietStep(l.rcv, s.rcv, Timeout);
    case StrayToReceiver(pkt) => Receiver.QuietStep(l.rcv, s.rcv, Packet(pkt));
    case _ =>
  }

  /** So no run strands such an upload. */
  lemma {:induction false} WindowOneNeverStrands(l: Link, run: Run)
    requires l.Valid() && NothingToBuffer(l) && Runnable(l, run)
    requires l.Total() < WRAP || AllRecent(l, run)
    ensures !Stranded(l, Exec(l, run))
  {
    if run.Then? {
      WindowOneNeverStrands(l, run.before);
      RunInv(l, run.before);
      NothingStrandsStep(l, Exec(l, run.before), run.move);
    }
  }

  // ---- Transfers can complete ----------------------------------------

  /** No policy of the receiver stands in the way of this file. */
  predicate Permitted(l: Link)
    requires l.Valid()
  {
    && (l.rcv.maxSize == 0 || |l.snd.data| <= l.rcv.maxSize)
    && (l.rcv.allowRollover || l.Total() < WRAP)
  }

  /** The run in which each of the blocks 1..n is delivered and acknowledged in turn. */
  function Lockstep(l: Link, n: nat): Run
    requires l.Valid()
  {
    if n == 0 then Start
    else Then(Then(Lockstep(l, n - 1), DeliverData(DataFlight(l, n))), DeliverAck(AckFlight(n)))
  }

  function LockstepReceiver(l: Link, n: nat): Receiver.State
    requires l.Valid()
  {
    Receiver.State(n + 1, 0, map[], l.Written(n), if n == l.Total() then Receiver.Complete else Receiver.Receiving)
  }

  function LockstepSender(l: Link, n: nat): Sender.State
    requires l.Valid()
  {
    Sender.State(n, 0, if n == l.Total() then Sender.Finished else Sender.Sending)
  }

  /** Both ends after n blocks, with every block up to the next one still in the channel. */
  predicate InLockstep(l: Link, s: System, n: nat)
    requires l.Valid() && n <= l.Total()
  {
    && s.snd == LockstepSender(l, n)
    && s.rcv == LockstepReceiver(l, n)
    && (forall k | 1 <= k <= n + 1 && k <= l.Total() :: DataFlight(l, k) in s.data)
    && WindowFlights(l, n) <= s.data
    && AckFlight(0) in s.acks
  }

  lemma LockstepReceives(l: Link, n: nat)
    requires l.Valid() && Permitted(l) && 1 <= n <= l.Total()
    ensures Receiver.Step(l.rcv, LockstepReceiver(l, n - 1), Packet(DataFlight(l, n).pkt)) ==
            Receiver.Reaction(LockstepReceiver(l, n), Some(n))
  {
    hide BlockCount, Slice, Prefix, Receiver.Step, Receiver.Accept;
    var r := LockstepReceiver(l, n - 1);
    Receiver.DataStep(l.rcv, r, Wire(n), l.Block(n));
    PrefixStep(l.snd.data, l.snd.blksize, n);
    OnlyLastIsShort(l.snd.data, l.snd.blksize, n);
    assert FirstMatch(n, n + l.rcv.windowsize - 1, Wire(n)) == Some(n);
    Receiver.AcceptAlone(l.rcv, r, l.Block(n));
  }

  lemma LockstepAcknowledges(l: Link, n: nat)
    requires l.Valid() && 1 <= n <= l.Total()
    ensures Sender.Step(l.snd, LockstepSender(l, n - 1), Packet(AckFlight(n).pkt)) == LockstepSender(l, n)
  {
    hide BlockCount, Sender.Step, PackAck;
    Sender.AckStep(l.snd, LockstepSender(l, n - 1), Wire(n));
  }

  lemma {:induction false} LockstepRuns(l: Link, n: nat)
    requires l.Valid() && Permitted(l) && l.snd.windowsize < WRAP && n <= l.Total()
    ensures Runnable(l, Lockstep(l, n)) && AllRecent(l, Lockstep(l, n))
    ensures InLockstep(l, Exec(l, Lockstep(l, n)), n)
  {
    hide Apply, Enabled, Recent, InLockstep;
    if n == 0 {
      LockstepStarts(l);
    } else {
      LockstepRuns(l, n - 1);
      LockstepRound(l, Exec(l, Lockstep(l, n - 1)), n);
      var half := Then(Lockstep(l, n - 1), DeliverData(DataFlight(l, n)));
      assert Runnable(l, half) && AllRecent(l, half) && Lockstep(l, n) == Then(half, DeliverAck(AckFlight(n)));
    }
  }

  lemma LockstepStarts(l: Link)
    requires l.Valid()
    ensures InLockstep(l, Initial(l), 0)
  {
    assert DataFlight(l, 1) in WindowFlights(l, 0);
    assert l.Written(0) == [];
  }

  lemma LockstepRound(l: Link, s: System, n: nat)
    requires l.Valid() && Permitted(l) && l.snd.windowsize < WRAP && 1 <= n <= l.Total() && InLockstep(l, s, n - 1)
    ensures var d, a := DeliverData(DataFlight(l, n)), DeliverAck(AckFlight(n));
            var s1 := Apply(l, s, d);
            && Enabled(s, d) && Recent(l, s, d)
            && Enabled(s1, a) && Recent(l, s1, a)
            && InLockstep(l, Apply(l, s1, a), n)
  {
    hide BlockCount, Slice, Prefix, Receiver.Step, Sender.Step;
    LockstepReceives(l, n);
    LockstepAcknowledges(l, n);
    if n < l.Total() {
      assert DataFlight(l, n + 1) in WindowFlights(l, n);
    }
  }

  /** Every permitted file has a run in which both ends complete and the file arrives. */
  lemma CanComplete(l: Link)
    requires l.Valid() && Permitted(l) && l.snd.windowsize < WRAP
    ensures exists run ::
              && Runnable(l, run) && AllRecent(l, run)
              && Exec(l, run).snd.status == Sender.Finished
              && Exec(l, run).rcv.status == Receiver.Complete
              && Exec(l, run).rcv.out == l.snd.data
  {
    var run := Lockstep(l, l.Total());
    LockstepRuns(l, l.Total());
    PrefixWhole(l.snd.data, l.snd.blksize, l.Total());
    assert Runnable(l, run) && AllRecent(l, run);
  }

  // ---- When uploads can strand ---------------------------------------

  /** All but the last two blocks one by one, then the last and then the one before it. */
  function SwappedAtTheEnd(l: Link): Run
    requires l.Valid() && l.Total() >= 2
  {
    var n := l.Total();
    Then(Then(Lockstep(l, n - 2), DeliverData(DataFlight(l, n))), DeliverData(DataFlight(l, n - 1)))
  }

  /** The receiver that has filed the last block and waits for the one before it. */
  function HoldsLast(l: Link): Receiver.State
    requires l.Valid() && l.Total() >= 2
  {
    var n := l.Total();
    Receiver.State(n - 1, 0, map[n := l.Block(n)], l.Written(n - 2), Receiver.Receiving)
  }

  lemma LastFirst(l: Link)
    requires l.Valid() && 2 <= l.snd.windowsize && l.Total() >= 2
    ensures Receiver.Step(l.rcv, LockstepReceiver(l, l.Total() - 2), Packet(DataFlight(l, l.Total()).pkt)) ==
            Receiver.Reaction(HoldsLast(l), Some(l.Total() - 2))
  {
    hide BlockCount, Slice, Prefix, Receiver.Step, FirstMatch;
    var n := l.Total();
    Receiver.DataStep(l.rcv, LockstepReceiver(l, n - 2), Wire(n), l.Block(n));
    OnlyMatch(n - 1, n - 2 + l.rcv.windowsize, n);
  }

  lemma SecondLastThen(l: Link)
    requires l.Valid() && Permitted(l) && l.Total() >= 2
    ensures var r := Receiver.Step(l.rcv, HoldsLast(l), Packet(DataFlight(l, l.Total() - 1).pkt)).state;
            r.status == Receiver.Receiving && r.expected == l.Total() + 1 && r.out == l.snd.data
  {
    hide BlockCount, Slice, Prefix, Receiver.Step, FirstMatch;
    var n, r := l.Total(), HoldsLast(l);
    Receiver.DataStep(l.rcv, r, Wire(n - 1), l.Block(n - 1));
    OnlyMatch(n - 1, n - 2 + l.rcv.windowsize, n - 1);
    PrefixStep(l.snd.data, l.snd.blksize, n - 1);
    PrefixStep(l.snd.data, l.snd.blksize, n);
    PrefixWhole(l.snd.data, l.snd.blksize, n);
    OnlyLastIsShort(l.snd.data, l.snd.blksize, n - 1);
    var r1 := r.(expected := n, out := l.Written(n - 1));
    var r2 := r1.(expected := n + 1, buffer := r.buffer - {n}, out := l.Written(n - 1) + l.Block(n));
    assert r.buffer - {n} == map[];
    assert Receiver.Drain(r1) == Receiver.Drain(r2) == r2;
  }

  lemma SwapStep(l: Link, s: System)
    requires l.Valid() && Permitted(l) && 2 <= l.snd.windowsize < WRAP && l.Total() >= 2
    requires InLockstep(l, s, l.Total() - 2)
    ensures var last, before := DeliverData(DataFlight(l, l.Total())), DeliverData(DataFlight(l, l.Total() - 1));
            var s1 := Apply(l, s, last);
            && Enabled(s, last) && Recent(l, s, last) && Enabled(s1, before) && Recent(l, s1, before)
            && Stranded(l, Apply(l, s1, before)) && Apply(l, s1, before).rcv.out == l.snd.data
  {
    hide BlockCount, Slice, Prefix, Receiver.Step;
    LastFirst(l);
    SecondLastThen(l);
    assert DataFlight(l, l.Total()) in WindowFlights(l, l.Total() - 2);
  }

  /** The last two blocks swapped on the way strand every permitted upload of two or more blocks with a
      window of two or more. */
  lemma SwappedBlocksStrand(l: Link)
    requires l.Valid() && Permitted(l) && 2 <= l.snd.windowsize < WRAP && l.Total() >= 2
    ensures var run := SwappedAtTheEnd(l);
            && Runnable(l, run) && AllRecent(l, run)
            && Stranded(l, Exec(l, run)) && Exec(l, run).rcv.out == l.snd.data
  {
    hide BlockCount, Apply, Enabled, Recent, InLockstep, Stranded;
    var n := l.Total();
    LockstepRuns(l, n - 2);
    SwapStep(l, Exec(l, Lockstep(l, n - 2)));
    var half := Then(Lockstep(l, n - 2), DeliverData(DataFlight(l, n)));
    assert Runnable(l, half) && AllRecent(l, half);
  }

  /** A permitted upload can strand exactly when the window is above 1 and there is more than one block. */
  lemma StrandsIff(l: Link)
    requires l.Valid() && Permitted(l) && l.snd.windowsize < WRAP
    ensures (exists run :: Runnable(l, run) && AllRecent(l, run) && Stranded(l, Exec(l, run))) <==>
            l.snd.windowsize > 1 && l.Total() > 1
  {
    if NothingToBuffer(l) {
      forall run | Runnable(l, run) && AllRecent(l, run) ensures !Stranded(l, Exec(l, run)) {
        WindowOneNeverStrands(l, run);
      }
    } else {
      SwappedBlocksStrand(l);
      assert Runnable(l, SwappedAtTheEnd(l));
    }
  }

  // ---- The bounds are exact ------------------------------------------

  /** How many blocks are through when block 1 is one block too old for `Recent`. */
  function TooLate(l: Link): int {
    WRAP + 1 - l.rcv.windowsize
  }

  /** The receiver that has filed the late block 1 under 65537, n blocks into the transfer. */
  function StaleReceiver(l: Link, n: nat): Receiver.State
    requires l.Valid()
  {
    Receiver.State(n + 1, 0, map[WRAP + 1 := l.Block(1)], l.Written(n), Receiver.Receiving)
  }

  predicate InStale(l: Link, s: System, n: nat)
    requires l.Valid() && n <= l.Total()
  {
    && s.snd == LockstepSender(l, n)
    && s.rcv == StaleReceiver(l, n)
    && (forall k | 1 <= k <= n + 1 && k <= l.Total() :: DataFlight(l, k) in s.data)
  }

  /** Block by block as before, but with block 1 delivered again as soon as it is too late. */
  function Stale(l: Link, n: nat): Run
    requires l.Valid() && 0 < TooLate(l) <= n
    decreases n
  {
    if n == TooLate(l) then Then(Lockstep(l, n), DeliverData(DataFlight(l, 1)))
    else Then(Then(Stale(l, n - 1), DeliverData(DataFlight(l, n))), DeliverAck(AckFlight(n)))
  }

  /** Ends with the delivery that makes the receiver write what it has filed under 65537. */
  function StaleToTheEnd(l: Link): Run
    requires l.Valid() && l.snd.windowsize < WRAP
  {
    if l.snd.windowsize == 1 then Stale(l, WRAP) else Then(Stale(l, WRAP - 1), DeliverData(DataFlight(l, WRAP)))
  }

  predicate LongEnough(l: Link)
    requires l.Valid()
  {
    Permitted(l) && l.snd.windowsize < WRAP && l.Total() > WRAP + 1
  }

  lemma LateIsFiled(l: Link)
    requires l.Valid() && LongEnough(l) && l.snd.windowsize > 1
    ensures Receiver.Step(l.rcv, LockstepReceiver(l, TooLate(l)), Packet(DataFlight(l, 1).pkt)) ==
            Receiver.Reaction(StaleReceiver(l, TooLate(l)), Some(TooLate(l)))
  {
    hide BlockCount, Slice, Prefix, Receiver.Step, FirstMatch;
    Receiver.DataStep(l.rcv, LockstepReceiver(l, TooLate(l)), Wire(1), l.Block(1));
    assert Wire(WRAP + 1) == Wire(1);
    OnlyMatch(TooLate(l) + 1, WRAP + 1, WRAP + 1);
  }

  /** The blocks before 65536 pass the filed one by. */
  lemma StaleReceives(l: Link, n: nat)
    requires l.Valid() && LongEnough(l) && 1 <= n < WRAP
    ensures Receiver.Step(l.rcv, StaleReceiver(l, n - 1), Packet(DataFlight(l, n).pkt)) ==
            Receiver.Reaction(StaleReceiver(l, n), Some(n))
  {
    hide BlockCount, Slice, Prefix, Receiver.Step;
    Receiver.DataStep(l.rcv, StaleReceiver(l, n - 1), Wire(n), l.Block(n));
    PrefixStep(l.snd.data, l.snd.blksize, n);
    OnlyLastIsShort(l.snd.data, l.snd.blksize, n);
    assert FirstMatch(n, n + l.rcv.windowsize - 1, Wire(n)) == Some(n);
  }

  /** Block 65536 is written and the filed one behind it. */
  lemma StaleIsDrained(l: Link)
    requires l.Valid() && LongEnough(l)
    ensures Receiver.Step(l.rcv, StaleReceiver(l, WRAP - 1), Packet(DataFlight(l, WRAP).pkt)).state.out ==
            l.Written(WRAP) + l.Block(1)
  {
    hide BlockCount, Slice, Prefix, Receiver.Step;
    var r := StaleReceiver(l, WRAP - 1);
    Receiver.DataStep(l.rcv, r, Wire(WRAP), l.Block(WRAP));
    PrefixStep(l.snd.data, l.snd.blksize, WRAP);
    assert FirstMatch(WRAP, WRAP + l.rcv.windowsize - 1, Wire(WRAP)) == Some(WRAP);
    var r1 := r.(expected := WRAP + 1, out := l.Written(WRAP));
    assert Receiver.Drain(r1).out == r1.out + l.Block(1);
  }

  lemma StaleStarts(l: Link, s: System)
    requires l.Valid() && LongEnough(l) && l.snd.windowsize > 1 && InLockstep(l, s, TooLate(l))
    ensures var d := DeliverData(DataFlight(l, 1)); Enabled(s, d) && InStale(l, Apply(l, s, d), TooLate(l))
  {
    hide BlockCount, Slice, Prefix, Receiver.Step;
    LateIsFiled(l);
  }

  lemma StaleRound(l: Link, s: System, n: nat)
    requires l.Valid() && LongEnough(l) && 1 <= n < WRAP && InStale(l, s, n - 1)
    ensures var d, a := DeliverData(DataFlight(l, n)), DeliverAck(AckFlight(n));
            var s1 := Apply(l, s, d);
            Enabled(s, d) && Enabled(s1, a) && InStale(l, Apply(l, s1, a), n)
  {
    hide BlockCount, Slice, Prefix, Receiver.Step, Sender.Step;
    StaleReceives(l, n);
    LockstepAcknowledges(l, n);
    assert DataFlight(l, n + 1) in WindowFlights(l, n);
  }

  lemma {:induction false} StaleRuns(l: Link, n: nat)
    requires l.Valid() && LongEnough(l) && l.snd.windowsize > 1 && TooLate(l) <= n < WRAP
    ensures Runnable(l, Stale(l, n)) && InStale(l, Exec(l, Stale(l, n)), n)
    decreases n
  {
    hide Apply, Enabled, InStale, InLockstep;
    if n == TooLate(l) {
      LockstepRuns(l, n);
      StaleStarts(l, Exec(l, Lockstep(l, n)));
    } else {
      StaleRuns(l, n - 1);
      StaleRound(l, Exec(l, Stale(l, n - 1)), n);
      var half := Then(Stale(l, n - 1), DeliverData(DataFlight(l, n)));
      assert Runnable(l, half) && Stale(l, n) == Then(half, DeliverAck(AckFlight(n)));
    }
  }

  lemma LateIsWritten(l: Link)
    requires l.Valid() && LongEnough(l) && l.snd.windowsize == 1
    ensures Receiver.Step(l.rcv, LockstepReceiver(l, WRAP), Packet(DataFlight(l, 1).pkt)).state.out ==
            l.Written(WRAP) + l.Block(1)
  {
    hide BlockCount, Slice, Prefix, Receiver.Step, Receiver.Accept, FirstMatch;
    var r := LockstepReceiver(l, WRAP);
    Receiver.DataStep(l.rcv, r, Wire(1), l.Block(1));
    assert Wire(WRAP + 1) == Wire(1);
    OnlyMatch(WRAP + 1, WRAP + 1, WRAP + 1);
    PrefixStep(l.snd.data, l.snd.blksize, WRAP + 1);
    OnlyLastIsShort(l.snd.data, l.snd.blksize, 1);
    OnlyLastIsShort(l.snd.data, l.snd.blksize, WRAP + 1);
    Receiver.AcceptAlone(l.rcv, r, l.Block(1));
  }

  /** The last delivery of the run, from any state that is in step with it. */
  lemma StaleEnds(l: Link, s: System)
    requires l.Valid() && LongEnough(l)
    requires if l.snd.windowsize == 1 then InLockstep(l, s, WRAP) else InStale(l, s, WRAP - 1)
    ensures var d := DeliverData(DataFlight(l, if l.snd.windowsize == 1 then 1 else WRAP));
            Enabled(s, d) && Apply(l, s, d).rcv.out == l.Written(WRAP) + l.Block(1)
  {
    hide BlockCount, Slice, Prefix, Receiver.Step;
    if l.snd.windowsize == 1 {
      LateIsWritten(l);
    } else {
      StaleIsDrained(l);
    }
  }

  /** For every window, a repeated DATA packet one block older than `Recent` allows ends up on disk in
      place of the block 65536 numbers later. */
  lemma StaleDataCorrupts(l: Link)
    requires l.Valid() && LongEnough(l) && l.Block(1) != l.Block(WRAP + 1)
    ensures Runnable(l, Lockstep(l, TooLate(l))) && AllRecent(l, Lockstep(l, TooLate(l)))
    ensures Exec(l, Lockstep(l, TooLate(l))).rcv.expected - 1 + l.rcv.windowsize == WRAP + 1
    ensures Runnable(l, StaleToTheEnd(l))
    ensures var out := Exec(l, StaleToTheEnd(l)).rcv.out;
            out == l.Written(WRAP) + l.Block(1) && !(out <= l.snd.data)
  {
    hide BlockCount, Slice, Prefix, Apply, Enabled, InStale;
    LockstepRuns(l, TooLate(l));
    SwappedBlockIsNoPrefix(l, WRAP + 1);
    if l.snd.windowsize == 1 {
      StaleEnds(l, Exec(l, Lockstep(l, WRAP)));
    } else {
      StaleRuns(l, WRAP - 1);
      StaleEnds(l, Exec(l, Stale(l, WRAP - 1)));
    }
  }

  lemma SwappedBlockIsNoPrefix(l: Link, n: nat)
    requires l.Valid() && 1 < n < l.Total() && l.Block(1) != l.Block(n)
    ensures !(l.Written(n - 1) + l.Block(1) <= l.snd.data)
  {
    var w := l.Written(n - 1);
    OnlyLastIsShort(l.snd.data, l.snd.blksize, 1);
    OnlyLastIsShort(l.snd.data, l.snd.blksize, n);
    PrefixStep(l.snd.data, l.snd.blksize, n);
    assert w + l.Block(n) <= l.snd.data;
    assert (w + l.Block(1))[|w|..] == l.Block(1) && (w + l.Block(n))[|w|..] == l.Block(n);
  }

  /** 65535 is the largest block count that needs no age bound: with one block more, for every window,
      the ACK 0 that opened the transfer, delivered again within a window of the end, finishes the
      sender early. */
  lemma RepeatedAckZeroFinishesEarly(l: Link)
    requires l.Valid() && Permitted(l) && l.snd.windowsize < WRAP && l.Total() == WRAP
    ensures var n := WRAP - l.snd.windowsize;
            var run := Then(Lockstep(l, n), DeliverAck(AckFlight(0)));
            && Runnable(l, run)
            && Exec(l, run).snd.status == Sender.Finished
            && Exec(l, run).rcv.status == Receiver.Receiving
            && Exec(l, run).rcv.out == l.Written(n)
  {
    hide BlockCount, Slice, Prefix, Apply, Enabled, InLockstep;
    var n := WRAP - l.snd.windowsize;
    LockstepRuns(l, n);
    AckZeroFinishes(l, Exec(l, Lockstep(l, n)));
  }

  lemma AckZeroFinishes(l: Link, s: System)
    requires l.Valid() && l.snd.windowsize < WRAP && l.Total() == WRAP && InLockstep(l, s, WRAP - l.snd.windowsize)
    ensures var s' := Apply(l, s, DeliverAck(AckFlight(0)));
            && Enabled(s, DeliverAck(AckFlight(0)))
            && s'.snd.status == Sender.Finished
            && s'.rcv == LockstepReceiver(l, WRAP - l.snd.windowsize)
  {
    hide BlockCount, Slice, Prefix, FirstMatch, Sender.Step, PackAck;
    var n := WRAP - l.snd.windowsize;
    Sender.AckStep(l.snd, LockstepSender(l, n), Wire(0));
    assert Wire(WRAP) == Wire(0);
    OnlyMatch(n + 1, WRAP, WRAP);
  }
}
