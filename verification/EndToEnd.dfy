/** The sender and the receiver joined by a channel that loses, duplicates and reorders
    packets. A packet in flight carries its absolute block number beside its bytes; the two
    transfer loops only ever see the bytes. */
module EndToEnd {
  import opened Blocks
  import opened Protocol
  import opened Wrappers
  import Sender
  import Receiver

  /** Both ends use the negotiated block and window size. */
  datatype Link = Link(snd: Sender.Job, rcv: Receiver.Job) {
    predicate Valid() {
      snd.Valid() && rcv.blksize == snd.blksize && rcv.windowsize == snd.windowsize
    }

    function Total(): (n: nat)
      requires Valid()
      ensures n > 0
    {
      snd.Total()
    }

    function Block(n: nat): seq<byte>
      requires Valid() && n > 0
    {
      Slice(snd.data, snd.blksize, n)
    }

    function Written(n: nat): seq<byte>
      requires Valid()
    {
      Prefix(snd.data, snd.blksize, n)
    }
  }

  datatype Flight = Flight(block: int, pkt: seq<byte>)

  /** Nothing ever leaves the channel, so any packet may arrive late, twice or never. */
  datatype System = System(snd: Sender.State, rcv: Receiver.State, data: set<Flight>, acks: set<Flight>)

  datatype Move =
    | SenderTimeout
    | ReceiverTimeout
    | DeliverAck(ack: Flight)
    | DeliverData(data: Flight)
    | StrayToSender(pkt: seq<byte>)
    | StrayToReceiver(pkt: seq<byte>)

  /** A run: the moves made since the start. */
  datatype Run = Start | Then(before: Run, move: Move)

  function DataFlight(l: Link, n: nat): Flight
    requires l.Valid() && n > 0
  {
    Flight(n, Sender.DataPacket(l.snd, n))
  }

  function AckFlight(n: int): Flight {
    Flight(n, PackAck(Wire(n)))
  }

  function WindowFlights(l: Link, lastAck: nat): set<Flight>
    requires l.Valid()
  {
    set n | lastAck + 1 <= n <= Sender.WindowEnd(l.snd, lastAck) :: DataFlight(l, n)
  }

  /** The first window is out, and so is the ACK 0 that opens an upload. */
  function Initial(l: Link): System
    requires l.Valid()
  {
    System(Sender.INIT, Receiver.INIT, WindowFlights(l, 0), {AckFlight(0)})
  }

  predicate Enabled(s: System, m: Move) {
    match m
    case SenderTimeout => s.snd.status == Sender.Sending
    case DeliverAck(f) => s.snd.status == Sender.Sending && f in s.acks
    case StrayToSender(pkt) => s.snd.status == Sender.Sending && !Decode(pkt).Ack?
    case ReceiverTimeout => s.rcv.status == Receiver.Receiving
    case DeliverData(f) => s.rcv.status == Receiver.Receiving && f in s.data
    case StrayToReceiver(pkt) => s.rcv.status == Receiver.Receiving && !Decode(pkt).Data?
  }

  /** A sender that goes round its loop again transmits its window again. */
  function AtSender(l: Link, s: System, ev: Event): System
    requires l.Valid()
  {
    var n := Sender.Step(l.snd, s.snd, ev);
    s.(snd := n, data := s.data + if n.status == Sender.Sending then WindowFlights(l, n.lastAck) else {})
  }

  function AtReceiver(l: Link, s: System, ev: Event): System {
    var n := Receiver.Step(l.rcv, s.rcv, ev);
    s.(rcv := n.state, acks := s.acks + if n.ack.Some? then {AckFlight(n.ack.value)} else {})
  }

  function Apply(l: Link, s: System, m: Move): System
    requires l.Valid()
  {
    match m
    case SenderTimeout => AtSender(l, s, Timeout)
    case DeliverAck(f) => AtSender(l, s, Packet(f.pkt))
    case StrayToSender(pkt) => AtSender(l, s, Packet(pkt))
    case ReceiverTimeout => AtReceiver(l, s, Timeout)
    case DeliverData(f) => AtReceiver(l, s, Packet(f.pkt))
    case StrayToReceiver(pkt) => AtReceiver(l, s, Packet(pkt))
  }

  function Exec(l: Link, run: Run): System
    requires l.Valid()
  {
    match run
    case Start => Initial(l)
    case Then(before, m) => Apply(l, Exec(l, before), m)
  }

  predicate Runnable(l: Link, run: Run)
    requires l.Valid()
  {
    match run
    case Start => true
    case Then(before, m) => Runnable(l, before) && Enabled(Exec(l, before), m)
  }

  /** The packet delivered is not so far behind its recipient that the recipient's window
      reaches the next block number with the same low 16 bits. */
  predicate Recent(l: Link, s: System, m: Move) {
    match m
    case DeliverAck(f) => s.snd.lastAck - f.block + l.snd.windowsize < WRAP
    case DeliverData(f) => s.rcv.expected - f.block + l.rcv.windowsize <= WRAP
    case _ => true
  }

  predicate AllRecent(l: Link, run: Run)
    requires l.Valid()
  {
    match run
    case Start => true
    case Then(before, m) => AllRecent(l, before) && Recent(l, Exec(l, before), m)
  }

  // ---- The invariant -------------------------------------------------

  predicate SenderInv(l: Link, s: System)
    requires l.Valid()
  {
    && s.snd.lastAck <= l.Total()
    && (s.snd.status == Sender.Sending ==> s.snd.lastAck < l.Total())
    && (s.snd.status == Sender.Finished ==> s.snd.lastAck == l.Total())
    && s.snd.lastAck < s.rcv.expected
  }

  /** Every key lies in lo..hi-1. What is buffered under a block sent so far (`limit` or below)
      is that block; the only other keys come from old packets read one cycle too high and lie
      beyond the first block past the end. */
  predicate BufferInv(l: Link, buffer: map<int, seq<byte>>, lo: int, limit: int)
    requires l.Valid()
  {
    forall k | k in buffer :: k >= lo > 0 && (if k <= limit then buffer[k] == l.Block(k) else k > l.Total() + 1)
  }

  predicate ReceiverInv(l: Link, r: Receiver.State, limit: int)
    requires l.Valid()
  {
    && 1 <= r.expected <= limit + 1 <= l.Total() + 1
    && r.out == l.Written(r.expected - 1)
    && (r.status != Receiver.Failed ==>
          && BufferInv(l, r.buffer, r.expected + 1, limit)
          && forall k | k in r.buffer :: k < r.expected + l.rcv.windowsize)
    && (r.status == Receiver.Complete ==> r.expected == l.Total() + 1)
  }

  predicate ChannelInv(l: Link, s: System)
    requires l.Valid()
  {
    && (forall f | f in s.data ::
          1 <= f.block <= l.Total() && f == DataFlight(l, f.block) && f.block <= s.snd.lastAck + l.snd.windowsize)
    && (forall f | f in s.acks :: 0 <= f.block < s.rcv.expected && f == AckFlight(f.block))
  }

  predicate Inv(l: Link, s: System)
    requires l.Valid()
  {
    SenderInv(l, s) && ReceiverInv(l, s.rcv, Sender.WindowEnd(l.snd, s.snd.lastAck)) && ChannelInv(l, s)
  }

  /** What a user of the transfer relies on. */
  predicate Safe(l: Link, s: System)
    requires l.Valid()
  {
    // what is on disk is a whole number of leading blocks of the data
    && (exists n: nat | n <= l.Total() :: s.rcv.out == l.Written(n))
    // leaving the receive loop by end of file means the whole file is there
    && (s.rcv.status == Receiver.Complete ==> s.rcv.out == l.snd.data)
    // and so does the sender's own completion
    && (s.snd.status == Sender.Finished ==> s.rcv.out == l.snd.data)
    // the reorder buffer stays smaller than the window and ahead of the write position
    && (s.rcv.status == Receiver.Receiving ==>
          |s.rcv.buffer| < l.rcv.windowsize && forall k | k in s.rcv.buffer :: s.rcv.expected < k)
  }

  // ---- Reading block numbers back from 16 bits -----------------------

  /** Either no number in the transfer wraps, or the packet is recent enough. */
  predicate Unambiguous(l: Link, s: System, m: Move)
    requires l.Valid()
  {
    l.Total() < WRAP || (l.snd.windowsize < WRAP && Recent(l, s, m))
  }

  /** A DATA packet in flight is taken for itself, or refused, or (only when nothing wraps)
      filed under a number past everything the transfer uses. */
  lemma DataReadBack(l: Link, s: System, f: Flight)
    requires l.Valid() && Inv(l, s) && f in s.data && Unambiguous(l, s, DeliverData(f))
    ensures var m := FirstMatch(s.rcv.expected, s.rcv.expected + l.rcv.windowsize - 1, Wire(f.block));
            m.Some? && m.value != f.block ==> m.value > WRAP && l.Total() < WRAP
  {
    var m := FirstMatch(s.rcv.expected, s.rcv.expected + l.rcv.windowsize - 1, Wire(f.block));
    if m.Some? && m.value != f.block {
      Congruent(m.value, f.block);
    }
  }

  /** An ACK in flight is credited to the block it was sent for, or ignored. */
  lemma AckReadBack(l: Link, s: System, f: Flight)
    requires l.Valid() && Inv(l, s) && f in s.acks && Unambiguous(l, s, DeliverAck(f))
    ensures var m := FirstMatch(s.snd.lastAck + 1, Sender.WindowEnd(l.snd, s.snd.lastAck), Wire(f.block));
            m.Some? ==> m.value == f.block
  {
    var m := FirstMatch(s.snd.lastAck + 1, Sender.WindowEnd(l.snd, s.snd.lastAck), Wire(f.block));
    if m.Some? && m.value != f.block {
      Congruent(m.value, f.block);
    }
  }

  // ---- Sender moves --------------------------------------------------

  lemma WindowFlightsInv(l: Link, s: System)
    requires l.Valid() && ChannelInv(l, s)
    ensures ChannelInv(l, s.(data := s.data + WindowFlights(l, s.snd.lastAck)))
  {
  }

  lemma SenderMoves(l: Link, s: System, n: Sender.State)
    requires l.Valid() && Inv(l, s) && n.lastAck <= l.Total()
    requires if n.lastAck == s.snd.lastAck then n.status == s.snd.status || n.status == Sender.Failed
             else s.snd.lastAck < n.lastAck < s.rcv.expected
                  && n.status == if n.lastAck < l.Total() then Sender.Sending else Sender.Finished
    ensures Inv(l, s.(snd := n))
    ensures Inv(l, s.(snd := n, data := s.data + WindowFlights(l, n.lastAck)))
  {
    WindowFlightsInv(l, s.(snd := n));
  }

  lemma QuietSenderInv(l: Link, s: System, ev: Event)
    requires l.Valid() && Inv(l, s) && s.snd.status == Sender.Sending
    requires ev.Packet? ==> !Decode(ev.pkt).Ack?
    ensures Inv(l, AtSender(l, s, ev))
  {
    Sender.QuietStep(l.snd, s.snd, ev);
    SenderMoves(l, s, Sender.Step(l.snd, s.snd, ev));
  }

  lemma DeliverAckInv(l: Link, s: System, f: Flight)
    requires l.Valid() && Inv(l, s) && Enabled(s, DeliverAck(f)) && Unambiguous(l, s, DeliverAck(f))
    ensures Inv(l, Apply(l, s, DeliverAck(f)))
  {
    AckReadBack(l, s, f);
    Sender.AckStep(l.snd, s.snd, Wire(f.block));
    SenderMoves(l, s, Sender.Step(l.snd, s.snd, Packet(f.pkt)));
  }

  // ---- Receiver moves ------------------------------------------------

  lemma {:induction false} DrainInv(l: Link, r: Receiver.State, limit: int)
    requires l.Valid() && 1 <= r.expected <= limit + 1 <= l.Total() + 1
    requires r.out == l.Written(r.expected - 1) && BufferInv(l, r.buffer, r.expected, limit)
    ensures var r' := Receiver.Drain(r);
            && r.expected <= r'.expected <= limit + 1
            && r'.out == l.Written(r'.expected - 1)
            && BufferInv(l, r'.buffer, r'.expected + 1, limit)
            && r'.buffer.Keys <= r.buffer.Keys
    decreases |r.buffer|
  {
    hide BlockCount, Slice, Prefix;
    if r.expected in r.buffer {
      PrefixStep(l.snd.data, l.snd.blksize, r.expected);
      var out := r.out + r.buffer[r.expected];
      DrainInv(l, r.(expected := r.expected + 1, buffer := r.buffer - {r.expected}, out := out), limit);
    }
  }

  /** A reaction that keeps the receiver in step with the data. */
  predicate GoodReaction(l: Link, r: Receiver.State, n: Receiver.Reaction, limit: int)
    requires l.Valid()
  {
    && ReceiverInv(l, n.state, limit)
    && n.state.expected >= r.expected
    && (n.ack.Some? ==> n.ack.value == n.state.expected - 1)
  }

  /** The expected block arrives. */
  lemma AcceptInv(l: Link, r: Receiver.State, limit: int)
    requires l.Valid() && ReceiverInv(l, r, limit) && r.status == Receiver.Receiving && r.expected <= limit
    ensures GoodReaction(l, r, Receiver.Accept(l.rcv, r, l.Block(r.expected)), limit)
  {
    hide BlockCount, Slice, Prefix;
    PrefixStep(l.snd.data, l.snd.blksize, r.expected);
    OnlyLastIsShort(l.snd.data, l.snd.blksize, r.expected);
    DrainInv(l, r.(expected := r.expected + 1, out := r.out + l.Block(r.expected)), limit);
  }

  /** Any block sent so far arrives, and is read back as `DataReadBack` allows. */
  lemma OnDataInv(l: Link, r: Receiver.State, block: nat, limit: int)
    requires l.Valid() && ReceiverInv(l, r, limit) && r.status == Receiver.Receiving && 1 <= block <= limit
    requires var m := FirstMatch(r.expected, r.expected + l.rcv.windowsize - 1, Wire(block));
             m.Some? && m.value != block ==> m.value > WRAP && l.Total() < WRAP
    ensures GoodReaction(l, r, Receiver.OnData(l.rcv, r, Wire(block), l.Block(block)), limit)
  {
    if block == r.expected {
      AcceptInv(l, r, limit);
    }
  }

  lemma ReceiverMoves(l: Link, s: System, ev: Event, n: Receiver.Reaction)
    requires l.Valid() && Inv(l, s) && n == Receiver.Step(l.rcv, s.rcv, ev)
    requires GoodReaction(l, s.rcv, n, Sender.WindowEnd(l.snd, s.snd.lastAck))
    ensures Inv(l, AtReceiver(l, s, ev))
  {
  }

  lemma DeliverDataInv(l: Link, s: System, f: Flight)
    requires l.Valid() && Inv(l, s) && Enabled(s, DeliverData(f)) && Unambiguous(l, s, DeliverData(f))
    ensures Inv(l, Apply(l, s, DeliverData(f)))
  {
    hide BlockCount, Slice, Prefix, PackData, PackAck, Decode;
    DataReadBack(l, s, f);
    Receiver.DataStep(l.rcv, s.rcv, Wire(f.block), l.Block(f.block));
    OnDataInv(l, s.rcv.(retries := 0), f.block, Sender.WindowEnd(l.snd, s.snd.lastAck));
    ReceiverMoves(l, s, Packet(f.pkt), Receiver.OnData(l.rcv, s.rcv.(retries := 0), Wire(f.block), l.Block(f.block)));
  }

  lemma QuietReceiverInv(l: Link, s: System, ev: Event)
    requires l.Valid() && Inv(l, s) && s.rcv.status == Receiver.Receiving
    requires ev.Packet? ==> !Decode(ev.pkt).Data?
    ensures Inv(l, AtReceiver(l, s, ev))
  {
    Receiver.QuietStep(l.rcv, s.rcv, ev);
    ReceiverMoves(l, s, ev, Receiver.Step(l.rcv, s.rcv, ev));
  }

  // ---- Whole runs ----------------------------------------------------

  lemma StepInv(l: Link, s: System, m: Move)
    requires l.Valid() && Inv(l, s) && Enabled(s, m) && Unambiguous(l, s, m)
    ensures Inv(l, Apply(l, s, m))
  {
    match m
    case DeliverData(f) => DeliverDataInv(l, s, f);
    case ReceiverTimeout => QuietReceiverInv(l, s, Timeout);
    case StrayToReceiver(pkt) => QuietReceiverInv(l, s, Packet(pkt));
    case DeliverAck(f) => DeliverAckInv(l, s, f);
    case SenderTimeout => QuietSenderInv(l, s, Timeout);
    case StrayToSender(pkt) => QuietSenderInv(l, s, Packet(pkt));
  }

  lemma {:induction false} RunInv(l: Link, run: Run)
    requires l.Valid() && Runnable(l, run)
    requires l.Total() < WRAP || (l.snd.windowsize < WRAP && AllRecent(l, run))
    ensures Inv(l, Exec(l, run))
  {
    match run
    case Start =>
    case Then(before, m) =>
      RunInv(l, before);
      StepInv(l, Exec(l, before), m);
  }

  lemma {:induction false} KeysInGap(keys: set<int>, lo: int, hi: int)
    requires lo < hi && forall k | k in keys :: lo < k < hi
    ensures |keys| < hi - lo
    decreases hi - lo
  {
    if hi - 1 in keys {
      assert lo < hi - 1;
      KeysInGap(keys - {hi - 1}, lo, hi - 1);
    } else if lo < hi - 1 {
      KeysInGap(keys, lo, hi - 1);
    } else {
      assert forall k | k in keys :: false;
      assert keys == {};
    }
  }

  lemma InvIsSafe(l: Link, s: System)
    requires l.Valid() && Inv(l, s)
    ensures Safe(l, s)
  {
    PrefixWhole(l.snd.data, l.snd.blksize, l.Total());
    assert s.rcv.out == l.Written(s.rcv.expected - 1);
    if s.rcv.status == Receiver.Receiving {
      KeysInGap(s.rcv.buffer.Keys, s.rcv.expected, s.rcv.expected + l.rcv.windowsize);
      assert |s.rcv.buffer| == |s.rcv.buffer.Keys|;
    }
  }

  /** Transfers of at most 65535 blocks are safe in every run, for every block and window size,
      whatever the channel loses, repeats or reorders and however late it delivers. */
  lemma SafetyWithoutRollover(l: Link, run: Run)
    requires l.Valid() && Runnable(l, run) && l.Total() <= 65535
    ensures Safe(l, Exec(l, run))
  {
    RunInv(l, run);
    InvIsSafe(l, Exec(l, run));
  }

  /** Transfers of any length are safe in every run in which every delivery is recent. */
  lemma SafetyWithRollover(l: Link, run: Run)
    requires l.Valid() && Runnable(l, run) && l.snd.windowsize <= 65535 && AllRecent(l, run)
    ensures Safe(l, Exec(l, run))
  {
    RunInv(l, run);
    InvIsSafe(l, Exec(l, run));
  }

  /** The check a download passes before its first packet. */
  predicate DownloadAdmitted(j: Sender.Job, allowRollover: bool)
    requires j.Valid()
  {
    allowRollover || j.Total() <= 65535
  }

  /** With rollover disabled a download is admitted exactly when its file is smaller than 65535 blocks. */
  lemma AdmittedIff(j: Sender.Job)
    requires j.Valid()
    ensures DownloadAdmitted(j, false) <==> |j.data| < 65535 * j.blksize
    ensures DownloadAdmitted(j, true)
  {
    FullBlocks(|j.data|, j.blksize, 65535);
  }

  /** With rollover disabled every admitted download is safe without any assumption on delays. */
  lemma AdmittedWithoutRolloverIsSafe(l: Link, run: Run)
    requires l.Valid() && Runnable(l, run) && DownloadAdmitted(l.snd, false)
    ensures Safe(l, Exec(l, run))
  {
    SafetyWithoutRollover(l, run);
  }
}
