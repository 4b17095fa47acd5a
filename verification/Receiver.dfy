/** The windowed DATA receiver of an upload (`_recv_file` in tftp/session.py). */
module Receiver {
  import opened Blocks
  import opened Protocol
  import opened Wrappers
  import Sender

  /** `maxSize` 0 means no cap. */
  datatype Job = Job(blksize: nat, windowsize: nat, maxRetries: nat, maxSize: nat, allowRollover: bool)

  datatype Status = Receiving | Complete | Failed

  /** `buffer` holds blocks received ahead of `expected`; `out` is what was written. */
  datatype State = State(expected: nat, retries: nat, buffer: map<int, seq<byte>>, out: seq<byte>, status: Status)

  const INIT := State(1, 0, map[], [], Receiving)

  /** A step's new state and the absolute block it acknowledges, if it sends an ACK. */
  datatype Reaction = Reaction(state: State, ack: Option<int>)

  /** Writes the run of buffered blocks that starts at `expected`. */
  function Drain(r: State): (r': State)
    ensures r'.expected !in r'.buffer && r'.expected >= r.expected
    ensures r' == r.(expected := r'.expected, buffer := r'.buffer, out := r'.out)
    decreases |r.buffer|
  {
    if r.expected in r.buffer then
      Drain(r.(expected := r.expected + 1, buffer := r.buffer - {r.expected}, out := r.out + r.buffer[r.expected]))
    else r
  }

  function ReAck(r: State): Reaction {
    Reaction(r, Some(r.expected - 1))
  }

  /** The packet is the expected block. */
  function Accept(j: Job, r: State, payload: seq<byte>): Reaction {
    if j.maxSize > 0 && |r.out| + |payload| > j.maxSize then Reaction(r.(status := Failed), None)
    else
      var r1 := r.(expected := r.expected + 1, out := r.out + payload);
      if !j.allowRollover && r1.expected > WRAP then Reaction(r1.(status := Failed), None)
      else
        var r2 := Drain(r1);
        Reaction(r2.(status := if |payload| < j.blksize then Complete else Receiving), Some(r2.expected - 1))
  }

  function OnData(j: Job, r: State, block: word, payload: seq<byte>): Reaction {
    match FirstMatch(r.expected, r.expected + j.windowsize - 1, block)
    case None => ReAck(r)
    case Some(m) =>
      if m == r.expected then Accept(j, r, payload)
      else ReAck(r.(buffer := r.buffer[m := payload]))
  }

  function Step(j: Job, r: State, ev: Event): Reaction {
    match ev
    case Timeout =>
      if r.retries + 1 > j.maxRetries then Reaction(r.(retries := r.retries + 1, status := Failed), None)
      else ReAck(r.(retries := r.retries + 1))
    case Packet(pkt) =>
      match Decode(pkt)
      case NoOpcode => Reaction(r.(status := Failed), None)
      case ShortData => Reaction(r.(status := Failed), None)
      case Error => Reaction(r.(status := Failed), None)
      case Data(block, payload) => OnData(j, r.(retries := 0), block, payload)
      case _ => Reaction(r, None)
  }

  /** An event that is not a DATA packet leaves the file and the buffer alone. */
  lemma QuietStep(j: Job, r: State, ev: Event)
    requires ev.Packet? ==> !Decode(ev.pkt).Data?
    ensures var n := Step(j, r, ev);
            && n.state == r.(retries := n.state.retries, status := n.state.status)
            && n.state.status in {r.status, Failed}
            && (n.ack.Some? ==> n.ack.value == r.expected - 1)
  {
  }

  lemma DataStep(j: Job, r: State, block: word, payload: seq<byte>)
    ensures Step(j, r, Packet(PackData(block, payload))) == OnData(j, r.(retries := 0), block, payload)
  {
    DecodeData(block, payload);
  }

  /** The expected block with nothing buffered behind it is written and nothing else happens. */
  lemma AcceptAlone(j: Job, r: State, payload: seq<byte>)
    requires r.buffer == map[] && (j.maxSize == 0 || |r.out| + |payload| <= j.maxSize)
    requires j.allowRollover || r.expected < WRAP
    ensures Accept(j, r, payload) ==
            Reaction(State(r.expected + 1, r.retries, map[], r.out + payload,
                           if |payload| < j.blksize then Complete else Receiving),
                     Some(r.expected))
  {
  }

  datatype Outcome = Outcome(state: State, acks: seq<seq<byte>>, used: nat)

  function AckBytes(a: Option<int>): seq<seq<byte>> {
    if a.Some? then [PackAck(Wire(a.value))] else []
  }

  /** The loop run over the events from index `used` on, having sent `acks` so far. */
  function Run(j: Job, r: State, events: seq<Event>, used: nat, acks: seq<seq<byte>>): Outcome
    requires used <= |events|
    decreases |events| - used
  {
    if r.status != Receiving || used == |events| then Outcome(r, acks, used)
    else
      var n := Step(j, r, events[used]);
      Run(j, n.state, events, used + 1, acks + AckBytes(n.ack))
  }

  /** The in-order branch of the loop body: write, then drain the reorder buffer. */
  method WriteInOrder(j: Job, r: State, payload: seq<byte>) returns (n: Reaction)
    requires r.status == Receiving
    ensures n == Accept(j, r, payload)
  {
    var transferred := |r.out|;
    if j.maxSize > 0 && transferred + |payload| > j.maxSize {
      return Reaction(r.(status := Failed), None);
    }
    var out, buffer := r.out + payload, r.buffer;
    var expected: nat := r.expected + 1;
    if !j.allowRollover && expected > WRAP {
      return Reaction(r.(expected := expected, out := out, status := Failed), None);
    }
    ghost var start := r.(expected := expected, out := out);
    while expected in buffer
      invariant Drain(start) == Drain(r.(expected := expected, out := out, buffer := buffer))
      decreases |buffer|
    {
      out := out + buffer[expected];
      buffer := buffer - {expected};
      expected := expected + 1;
    }
    var status := if |payload| < j.blksize then Complete else Receiving;
    n := Reaction(State(expected, r.retries, buffer, out, status), Some(expected - 1));
  }

  method ReceiveFile(j: Job, events: seq<Event>) returns (o: Outcome)
    ensures o == Run(j, INIT, events, 0, [])
  {
    var r, acks, used := INIT, [], 0;
    while r.status == Receiving && used < |events|
      invariant used <= |events|
      invariant Run(j, INIT, events, 0, []) == Run(j, r, events, used, acks)
      decreases |events| - used
    {
      var n := React(j, r, events[used]);
      r, acks, used := n.state, acks + AckBytes(n.ack), used + 1;
    }
    o := Outcome(r, acks, used);
  }

  /** One trip around the loop; `Failed` where the source raises. */
  method React(j: Job, r: State, ev: Event) returns (n: Reaction)
    requires r.status == Receiving
    ensures n == Step(j, r, ev)
  {
    if ev.Timeout? {
      var r' := r.(retries := r.retries + 1);
      if r'.retries > j.maxRetries {
        return Reaction(r'.(status := Failed), None);
      }
      return Reaction(r', Some(r.expected - 1));
    }
    var msg := Decode(ev.pkt);
    if msg.NoOpcode? || msg.Error? || msg.ShortData? {
      return Reaction(r.(status := Failed), None);
    }
    if !msg.Data? {
      return Reaction(r, None);
    }
    n := PlaceBlock(j, r.(retries := 0), msg.block, msg.payload);
  }

  /** Finds the absolute number of a DATA packet and writes, buffers or refuses it. */
  method PlaceBlock(j: Job, r: State, block: word, payload: seq<byte>) returns (n: Reaction)
    requires r.status == Receiving
    ensures n == OnData(j, r, block, payload)
  {
    var matched := Sender.FindCandidate(r.expected, r.expected + j.windowsize - 1, block);
    if matched.None? {
      n := Reaction(r, Some(r.expected - 1));
    } else if matched.value == r.expected {
      n := WriteInOrder(j, r, payload);
    } else {
      n := Reaction(r.(buffer := r.buffer[matched.value := payload]), Some(r.expected - 1));
    }
  }
}
