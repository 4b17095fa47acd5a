/** The two ends of `EndToEnd` are the two loops: in every run the states of the ends, the packets in the
    channel and the ACKs in it are what `SendFile` and `ReceiveFile` make of the events each end saw. */
module LoopRefinement {
  import opened Blocks
  import opened Protocol
  import opened Wrappers
  import opened EndToEnd
  import Sender
  import Receiver
  import SR = SenderRuns
  import RR = ReceiverRuns

  /** What the sender saw in a run. */
  function SenderEvents(run: Run): seq<Event> {
    match run
    case Start => []
    case Then(before, SenderTimeout) => SenderEvents(before) + [Timeout]
    case Then(before, DeliverAck(f)) => SenderEvents(before) + [Packet(f.pkt)]
    case Then(before, StrayToSender(pkt)) => SenderEvents(before) + [Packet(pkt)]
    case Then(before, _) => SenderEvents(before)
  }

  /** What the receiver saw. */
  function ReceiverEvents(run: Run): seq<Event> {
    match run
    case Start => []
    case Then(before, ReceiverTimeout) => ReceiverEvents(before) + [Timeout]
    case Then(before, DeliverData(f)) => ReceiverEvents(before) + [Packet(f.pkt)]
    case Then(before, StrayToReceiver(pkt)) => ReceiverEvents(before) + [Packet(pkt)]
    case Then(before, _) => ReceiverEvents(before)
  }

  function Bytes(flights: set<Flight>): set<seq<byte>> {
    set f | f in flights :: f.pkt
  }

  function Members(s: seq<seq<byte>>): set<seq<byte>> {
    set p | p in s
  }

  // ---- The sender's side ---------------------------------------------

  lemma {:induction false} SenderPrefix(j: Sender.Job, events: seq<Event>, ev: Event, n: nat)
    requires j.Valid() && n <= |events|
    ensures SR.StateAt(j, events + [ev], n) == SR.StateAt(j, events, n)
    ensures SR.SentUpTo(j, events + [ev], n) == SR.SentUpTo(j, events, n)
  {
    hide Sender.Step, Sender.Window;
    if n > 0 {
      SenderPrefix(j, events, ev, n - 1);
    }
  }

  /** The sender's state and everything it has put on the wire. */
  predicate SenderAgrees(l: Link, s: System, events: seq<Event>)
    requires l.Valid()
  {
    && s.snd == SR.StateAt(l.snd, events, |events|)
    && Bytes(s.data) ==
       Members(SR.SentUpTo(l.snd, events, if s.snd.status == Sender.Sending then |events| + 1 else |events|))
    && forall i | 0 <= i < |events| :: SR.StateAt(l.snd, events, i).status == Sender.Sending
  }

  lemma WindowIsFlights(l: Link, lastAck: nat)
    requires l.Valid()
    ensures Bytes(WindowFlights(l, lastAck)) == Members(Sender.Window(l.snd, lastAck))
  {
    hide Sender.DataPacket, BlockCount;
    var ws, fs := Sender.Window(l.snd, lastAck), WindowFlights(l, lastAck);
    forall p | p in Members(ws) ensures p in Bytes(fs) {
      var i :| 0 <= i < |ws| && ws[i] == p;
      assert DataFlight(l, lastAck + 1 + i) in fs;
    }
    forall p | p in Bytes(fs) ensures p in Members(ws) {
      var f :| f in fs && f.pkt == p;
      assert ws[f.block - lastAck - 1] == p;
    }
  }

  lemma BytesUnion(a: set<Flight>, b: set<Flight>)
    ensures Bytes(a + b) == Bytes(a) + Bytes(b)
  {
  }

  lemma MembersAppend(a: seq<seq<byte>>, b: seq<seq<byte>>)
    ensures Members(a + b) == Members(a) + Members(b)
  {
  }

  lemma SenderMove(l: Link, s: System, events: seq<Event>, ev: Event)
    requires l.Valid() && SenderAgrees(l, s, events) && s.snd.status == Sender.Sending
    ensures SenderAgrees(l, AtSender(l, s, ev), events + [ev])
  {
    hide Sender.Step, Sender.Window, WindowFlights, Members, Bytes, BlockCount;
    var n, more := |events|, events + [ev];
    forall i | 0 <= i <= n ensures SR.StateAt(l.snd, more, i) == SR.StateAt(l.snd, events, i) {
      SenderPrefix(l.snd, events, ev, i);
    }
    var s' := AtSender(l, s, ev);
    assert s'.snd == SR.StateAt(l.snd, more, n + 1);
    SentMore(l, events, ev);
    WindowIsFlights(l, s'.snd.lastAck);
    BytesUnion(s.data, WindowFlights(l, s'.snd.lastAck));
    MembersAppend(SR.SentUpTo(l.snd, more, n + 1), Sender.Window(l.snd, s'.snd.lastAck));
    assert s.data + {} == s.data;
  }

  lemma SentMore(l: Link, events: seq<Event>, ev: Event)
    requires l.Valid()
    ensures SR.SentUpTo(l.snd, events + [ev], |events| + 1) == SR.SentUpTo(l.snd, events, |events| + 1)
  {
    hide Sender.Step, Sender.Window;
    SenderPrefix(l.snd, events, ev, |events|);
  }

  // ---- The receiver's side -------------------------------------------

  lemma {:induction false} ReceiverPrefix(j: Receiver.Job, events: seq<Event>, ev: Event, n: nat)
    requires n <= |events|
    ensures RR.StateAt(j, events + [ev], n) == RR.StateAt(j, events, n)
    ensures RR.AcksUpTo(j, events + [ev], n) == RR.AcksUpTo(j, events, n)
  {
    hide Receiver.Step, RR.IsData, RR.AckOf;
    if n > 0 {
      ReceiverPrefix(j, events, ev, n - 1);
    }
  }

  predicate ReceiverAgrees(l: Link, s: System, events: seq<Event>) {
    && s.rcv == RR.StateAt(l.rcv, events, |events|)
    && Bytes(s.acks) == {PackAck(0)} + Members(RR.AcksUpTo(l.rcv, events, |events|))
    && forall i | 0 <= i < |events| :: RR.StateAt(l.rcv, events, i).status == Receiver.Receiving
  }

  lemma ReceiverMove(l: Link, s: System, events: seq<Event>, ev: Event)
    requires l.Valid() && ReceiverAgrees(l, s, events) && s.rcv.status == Receiver.Receiving
    ensures ReceiverAgrees(l, AtReceiver(l, s, ev), events + [ev])
  {
    hide Receiver.Step, Members, Bytes, RR.AckOf, PackAck, RR.IsData;
    var n, more := |events|, events + [ev];
    forall i | 0 <= i <= n ensures RR.StateAt(l.rcv, more, i) == RR.StateAt(l.rcv, events, i) {
      ReceiverPrefix(l.rcv, events, ev, i);
    }
    ReceiverPrefix(l.rcv, events, ev, n);
    var s' := AtReceiver(l, s, ev);
    assert s'.rcv == RR.StateAt(l.rcv, more, n + 1);
    RR.AnswersExactly(l.rcv, s.rcv, ev);
    var ack := Receiver.Step(l.rcv, s.rcv, ev).ack;
    if ack.Some? {
      RR.AckOfIs(ack.value);
      BytesUnion(s.acks, {AckFlight(ack.value)});
      OneFlight(AckFlight(ack.value));
      MembersAppend(RR.AcksUpTo(l.rcv, events, n), [RR.AckOf(ack.value)]);
      OneMember(RR.AckOf(ack.value));
    } else {
      assert s.acks + {} == s.acks;
      assert RR.AcksUpTo(l.rcv, more, n + 1) == RR.AcksUpTo(l.rcv, events, n) + [] == RR.AcksUpTo(l.rcv, events, n);
    }
  }

  lemma OneFlight(f: Flight)
    ensures Bytes({f}) == {f.pkt}
  {
  }

  lemma OneMember(p: seq<byte>)
    ensures Members([p]) == {p}
  {
  }

  // ---- Every run -----------------------------------------------------

  lemma {:induction false} EndsAgree(l: Link, run: Run)
    requires l.Valid() && Runnable(l, run)
    ensures SenderAgrees(l, Exec(l, run), SenderEvents(run))
    ensures ReceiverAgrees(l, Exec(l, run), ReceiverEvents(run))
  {
    match run {
      case Start => StartAgrees(l);
      case Then(before, m) =>
        EndsAgree(l, before);
        var s := Exec(l, before);
        hide SenderAgrees, ReceiverAgrees, Sender.Step, Receiver.Step, BlockCount, WindowFlights;
        match m
        case SenderTimeout => OnlySender(l, s, before, Timeout);
        case DeliverAck(f) => OnlySender(l, s, before, Packet(f.pkt));
        case StrayToSender(pkt) => OnlySender(l, s, before, Packet(pkt));
        case ReceiverTimeout => OnlyReceiver(l, s, before, Timeout);
        case DeliverData(f) => OnlyReceiver(l, s, before, Packet(f.pkt));
        case StrayToReceiver(pkt) => OnlyReceiver(l, s, before, Packet(pkt));
    }
  }

  lemma OnlySender(l: Link, s: System, before: Run, ev: Event)
    requires l.Valid() && s.snd.status == Sender.Sending
    requires SenderAgrees(l, s, SenderEvents(before)) && ReceiverAgrees(l, s, ReceiverEvents(before))
    ensures SenderAgrees(l, AtSender(l, s, ev), SenderEvents(before) + [ev])
    ensures ReceiverAgrees(l, AtSender(l, s, ev), ReceiverEvents(before))
  {
    hide Sender.Step, Receiver.Step, BlockCount, WindowFlights, Bytes, Members, SenderAgrees;
    SenderMove(l, s, SenderEvents(before), ev);
  }

  lemma OnlyReceiver(l: Link, s: System, before: Run, ev: Event)
    requires l.Valid() && s.rcv.status == Receiver.Receiving
    requires SenderAgrees(l, s, SenderEvents(before)) && ReceiverAgrees(l, s, ReceiverEvents(before))
    ensures ReceiverAgrees(l, AtReceiver(l, s, ev), ReceiverEvents(before) + [ev])
    ensures SenderAgrees(l, AtReceiver(l, s, ev), SenderEvents(before))
  {
    hide Sender.Step, Receiver.Step, BlockCount, Bytes, Members, ReceiverAgrees;
    ReceiverMove(l, s, ReceiverEvents(before), ev);
  }

  lemma StartAgrees(l: Link)
    requires l.Valid()
    ensures SenderAgrees(l, Initial(l), []) && ReceiverAgrees(l, Initial(l), [])
  {
    hide Sender.Window, WindowFlights, BlockCount, PackAck, Members, Bytes;
    WindowIsFlights(l, 0);
    assert SR.SentUpTo(l.snd, [], 1) == [] + Sender.Window(l.snd, 0) == Sender.Window(l.snd, 0);
    OneFlight(AckFlight(0));
    NoMembers();
  }

  lemma NoMembers()
    ensures Members([]) == {}
  {
  }

  /** The send loop's outcome for what the sender saw. */
  lemma SenderIsLoop(l: Link, s: System, events: seq<Event>)
    requires l.Valid() && SenderAgrees(l, s, events)
    ensures var o := Sender.Run(l.snd, Sender.INIT, events, 0, []);
            o.state == s.snd && Members(o.sent) == Bytes(s.data) && o.used == |events|
  {
    hide Sender.Step, BlockCount, Sender.Window, Bytes, Members, SR.StateAt, SR.SentUpTo, Sender.Run;
    var m := SR.OutcomeIs(l.snd, events);
    assert m == |events|;
  }

  lemma ReceiverIsLoop(l: Link, s: System, events: seq<Event>)
    requires l.Valid() && ReceiverAgrees(l, s, events)
    ensures var o := Receiver.Run(l.rcv, Receiver.INIT, events, 0, []);
            o.state == s.rcv && {PackAck(0)} + Members(o.acks) == Bytes(s.acks) && o.used == |events|
  {
    hide Receiver.Step, Bytes, Members, RR.StateAt, RR.AcksUpTo, Receiver.Run, PackAck;
    var m := RR.OutcomeIs(l.rcv, events);
    assert m == |events|;
  }

  /** In every run the ends of the joint system are in the states the two loops return for the events they saw, and
      the channel holds exactly the packets those loops sent. */
  lemma EndsAreLoops(l: Link, run: Run)
    requires l.Valid() && Runnable(l, run)
    ensures var s := Exec(l, run);
            var sent := Sender.Run(l.snd, Sender.INIT, SenderEvents(run), 0, []);
            var got := Receiver.Run(l.rcv, Receiver.INIT, ReceiverEvents(run), 0, []);
            && sent.state == s.snd && Members(sent.sent) == Bytes(s.data)
            && got.state == s.rcv && {PackAck(0)} + Members(got.acks) == Bytes(s.acks)
  {
    hide SenderAgrees, ReceiverAgrees, Sender.Run, Receiver.Run, Exec, Bytes, Members, PackAck;
    EndsAgree(l, run);
    SenderIsLoop(l, Exec(l, run), SenderEvents(run));
    ReceiverIsLoop(l, Exec(l, run), ReceiverEvents(run));
  }

  /** So, with at most 65535 blocks or recent deliveries only, what the receive loop has written is a whole number of
      leading blocks, and all of the data once either loop says it is through. */
  lemma LoopsAreSafe(l: Link, run: Run)
    requires l.Valid() && Runnable(l, run)
    requires l.Total() <= 65535 || (l.snd.windowsize <= 65535 && AllRecent(l, run))
    ensures var sent := Sender.Run(l.snd, Sender.INIT, SenderEvents(run), 0, []).state;
            var got := Receiver.Run(l.rcv, Receiver.INIT, ReceiverEvents(run), 0, []).state;
            && (exists n: nat | n <= l.Total() :: got.out == l.Written(n))
            && (sent.status == Sender.Finished || got.status == Receiver.Complete ==> got.out == l.snd.data)
  {
    hide Sender.Run, Receiver.Run, Exec, Bytes, Members, PackAck, Prefix, BlockCount, Inv, AllRecent, Runnable;
    EndsAreLoops(l, run);
    RunInv(l, run);
    InvIsSafe(l, Exec(l, run));
  }
}
