/** The windowed DATA sender of a download (`_send_file` in tftp/session.py). */
module Sender {
  import opened Blocks
  import opened Protocol
  import opened Wrappers

  /** `windowsize` is the negotiated value after `max(1, ...)`. */
  datatype Job = Job(data: seq<byte>, blksize: nat, windowsize: nat, maxRetries: nat) {
    predicate Valid() {
      blksize > 0 && windowsize > 0
    }

    function Total(): (n: nat)
      requires Valid()
      ensures n > 0
    {
      BlockCount(|data|, blksize)
    }
  }

  datatype Status = Sending | Finished | Failed

  datatype State = State(lastAck: nat, retries: nat, status: Status)

  const INIT := State(0, 0, Sending)

  function WindowEnd(j: Job, lastAck: nat): int
    requires j.Valid()
  {
    Min(lastAck + j.windowsize, j.Total())
  }

  /** The DATA packet of absolute block n. */
  function DataPacket(j: Job, n: nat): seq<byte>
    requires j.Valid() && n > 0
  {
    PackData(Wire(n), Slice(j.data, j.blksize, n))
  }

  /** The packets of blocks lo..hi in order. */
  function Packets(j: Job, lo: nat, hi: int): (ps: seq<seq<byte>>)
    requires j.Valid() && lo > 0
    ensures |ps| == if hi < lo then 0 else hi - lo + 1
    ensures forall i | 0 <= i < |ps| :: ps[i] == DataPacket(j, lo + i)
    decreases hi - lo
  {
    if hi < lo then [] else [DataPacket(j, lo)] + Packets(j, lo + 1, hi)
  }

  function Window(j: Job, lastAck: nat): seq<seq<byte>>
    requires j.Valid()
  {
    Packets(j, lastAck + 1, WindowEnd(j, lastAck))
  }

  /** One trip around the loop after its window has gone out. */
  function Step(j: Job, s: State, ev: Event): State
    requires j.Valid()
  {
    match ev
    case Timeout =>
      s.(retries := s.retries + 1, status := if s.retries + 1 > j.maxRetries then Failed else s.status)
    case Packet(pkt) =>
      match Decode(pkt)
      case NoOpcode => s.(status := Failed)
      case ShortAck => s.(status := Failed)
      case Error => s.(status := Failed)
      case Ack(block) =>
        (match FirstMatch(s.lastAck + 1, WindowEnd(j, s.lastAck), block)
         case Some(c) => State(c, 0, if c < j.Total() then Sending else Finished)
         case None => s)
      case _ => s
  }

  /** An event that is not an ACK acknowledges nothing and can only end the transfer. */
  lemma QuietStep(j: Job, s: State, ev: Event)
    requires j.Valid() && (ev.Packet? ==> !Decode(ev.pkt).Ack?)
    ensures Step(j, s, ev).lastAck == s.lastAck
    ensures Step(j, s, ev).status in {s.status, Failed}
  {
  }

  lemma AckStep(j: Job, s: State, block: word)
    requires j.Valid()
    ensures var hit := FirstMatch(s.lastAck + 1, WindowEnd(j, s.lastAck), block);
            Step(j, s, Packet(PackAck(block))) ==
            if hit.Some? then State(hit.value, 0, if hit.value < j.Total() then Sending else Finished) else s
  {
    DecodeAck(block);
  }

  datatype Outcome = Outcome(state: State, sent: seq<seq<byte>>, used: nat)

  /** The loop run over the events from index `used` on, having sent `sent` so far: the
      state it stops or waits in, every packet it sent, and how many events it took. */
  function Run(j: Job, s: State, events: seq<Event>, used: nat, sent: seq<seq<byte>>): Outcome
    requires j.Valid() && used <= |events|
    decreases |events| - used
  {
    if s.status != Sending then Outcome(s, sent, used)
    else
      var sent' := sent + Window(j, s.lastAck);
      if used == |events| then Outcome(s, sent', used)
      else Run(j, Step(j, s, events[used]), events, used + 1, sent')
  }

  /** The inner `for bn` loop: queues blocks first..last behind what was sent before. */
  method SendWindow(j: Job, first: nat, last: int, before: seq<seq<byte>>) returns (sent: seq<seq<byte>>)
    requires j.Valid() && 0 < first <= last + 1
    ensures sent == before + Packets(j, first, last)
  {
    sent := before;
    for bn := first to last + 1
      invariant |sent| == |before| + bn - first
      invariant forall i | 0 <= i < |before| :: sent[i] == before[i]
      invariant forall i | |before| <= i < |sent| :: sent[i] == DataPacket(j, first + i - |before|)
    {
      sent := sent + [PackData(Wire(bn), Slice(j.data, j.blksize, bn))];
    }
  }

  /** The inner `for candidate` loop of both transfer loops. */
  method FindCandidate(lo: nat, hi: int, wire: nat) returns (r: Option<nat>)
    ensures r == FirstMatch(lo, hi, wire)
  {
    var candidate := lo;
    while candidate <= hi
      invariant lo <= candidate && (candidate <= hi + 1 || candidate == lo)
      invariant FirstMatch(lo, hi, wire) == FirstMatch(candidate, hi, wire)
    {
      if Wire(candidate) == wire {
        return Some(candidate);
      }
      candidate := candidate + 1;
    }
    r := None;
  }

  /** The part of the loop body after the wait; `Failed` where the source raises. */
  method React(j: Job, s: State, windowEnd: int, ev: Event) returns (s': State)
    requires j.Valid() && s.status == Sending && windowEnd == WindowEnd(j, s.lastAck)
    ensures s' == Step(j, s, ev)
    ensures s.lastAck < j.Total() && s'.status != Failed
            ==> s'.lastAck <= j.Total() && s'.status == if s'.lastAck < j.Total() then Sending else Finished
  {
    s' := s;
    if ev.Timeout? {
      s' := s'.(retries := s.retries + 1);
      if s'.retries > j.maxRetries {
        s' := s'.(status := Failed);
      }
      return;
    }
    var msg := Decode(ev.pkt);
    if msg.NoOpcode? || msg.Error? || msg.ShortAck? {
      s' := s'.(status := Failed);
    } else if msg.Ack? {
      var hit := FindCandidate(s.lastAck + 1, windowEnd, msg.block);
      if hit.Some? {
        s' := State(hit.value, 0, if hit.value < j.Total() then Sending else Finished);
      }
    }
  }

  method SendFile(j: Job, events: seq<Event>) returns (o: Outcome)
    requires j.Valid()
    ensures o == Run(j, INIT, events, 0, [])
  {
    hide BlockCount, Step;
    var total := j.Total();
    var s, sent, used := INIT, [], 0;
    while s.lastAck < total
      invariant used <= |events| && s.lastAck <= total == j.Total()
      invariant s.status == if s.lastAck < total then Sending else Finished
      invariant Run(j, INIT, events, 0, []) == Run(j, s, events, used, sent)
      decreases |events| - used
    {
      var windowEnd := Min(s.lastAck + j.windowsize, total);
      sent := SendWindow(j, s.lastAck + 1, windowEnd, sent);
      if used == |events| {
        return Outcome(s, sent, used);
      }
      s := React(j, s, windowEnd, events[used]);
      used := used + 1;
      if s.status == Failed {
        return Outcome(s, sent, used);
      }
    }
    o := Outcome(s, sent, used);
  }

  // ---- Termination ---------------------------------------------------

  /** An event the loop reacts to: anything but a packet that acknowledges nothing. */
  predicate Effective(j: Job, s: State, ev: Event)
    requires j.Valid()
  {
    Step(j, s, ev) != s
  }

  /** How many of the events taken from index `used` on are effective. */
  function EffectiveCount(j: Job, s: State, events: seq<Event>, used: nat): nat
    requires j.Valid() && used <= |events|
    decreases |events| - used
  {
    if s.status != Sending || used == |events| then 0
    else
      (if Effective(j, s, events[used]) then 1 else 0) + EffectiveCount(j, Step(j, s, events[used]), events, used + 1)
  }

  predicate WellFormed(j: Job, s: State)
    requires j.Valid()
  {
    && s.lastAck <= j.Total()
    && (s.status == Sending ==> s.lastAck < j.Total() && s.retries <= j.maxRetries)
    && (s.status == Finished <==> s.lastAck == j.Total())
    && s.retries <= j.maxRetries + 1
  }

  /** Blocks left, then retries left, as one number. */
  function Measure(j: Job, s: State): int
    requires j.Valid() && s.lastAck <= j.Total()
  {
    Budget(j.Total() - s.lastAck, j.maxRetries) - s.retries
  }

  /** Events that can still be spent on this many blocks. */
  function Budget(blocks: nat, maxRetries: nat): nat {
    if blocks == 0 then 0 else maxRetries + 1 + Budget(blocks - 1, maxRetries)
  }

  lemma {:induction false} BudgetGrows(fewer: nat, blocks: nat, maxRetries: nat)
    requires fewer < blocks
    ensures Budget(fewer, maxRetries) + maxRetries + 1 <= Budget(blocks, maxRetries)
    decreases blocks
  {
    if fewer < blocks - 1 {
      BudgetGrows(fewer, blocks - 1, maxRetries);
    }
  }

  lemma {:induction false} BudgetIsProduct(blocks: nat, maxRetries: nat)
    ensures Budget(blocks, maxRetries) == blocks * (maxRetries + 1)
  {
    if blocks > 0 {
      BudgetIsProduct(blocks - 1, maxRetries);
      assert blocks * (maxRetries + 1) == (blocks - 1) * (maxRetries + 1) + (maxRetries + 1);
    }
  }

  /** Every step keeps the loop's state well formed and moves `lastAck` only forward; a
      packet that is acted on and does not end the transfer acknowledges new blocks. */
  lemma StepKeepsWellFormed(j: Job, s: State, ev: Event)
    requires j.Valid() && WellFormed(j, s) && s.status == Sending
    ensures var s' := Step(j, s, ev);
            && WellFormed(j, s')
            && s.lastAck <= s'.lastAck <= s.lastAck + j.windowsize
            && (Effective(j, s, ev) && s'.status != Failed ==>
                  if ev.Timeout? then s' == s.(retries := s.retries + 1) else s.lastAck < s'.lastAck && s'.retries == 0)
  {
  }

  lemma MeasureDrops(j: Job, s: State, s': State)
    requires j.Valid() && s.lastAck < j.Total() && s'.lastAck <= j.Total() && s.retries <= j.maxRetries
    requires s' == s.(retries := s.retries + 1) || (s.lastAck < s'.lastAck && s'.retries == 0)
    ensures Measure(j, s') < Measure(j, s) && Measure(j, s) >= 1
  {
    var total := j.Total();
    BudgetGrows(0, total - s.lastAck, j.maxRetries);
    if s'.lastAck > s.lastAck {
      BudgetGrows(total - s'.lastAck, total - s.lastAck, j.maxRetries);
    }
  }

  /** An effective step uses up some of the measure, which is positive while sending. */
  lemma StepDecreases(j: Job, s: State, ev: Event)
    requires j.Valid() && WellFormed(j, s) && s.status == Sending
    ensures WellFormed(j, Step(j, s, ev))
    ensures Step(j, s, ev).status == Sending && Effective(j, s, ev) ==> Measure(j, Step(j, s, ev)) < Measure(j, s)
    ensures Measure(j, s) >= 1
  {
    StepKeepsWellFormed(j, s, ev);
    var s' := Step(j, s, ev);
    MeasureDrops(j, s, s.(retries := s.retries + 1));
    if s'.status == Sending && Effective(j, s, ev) {
      MeasureDrops(j, s, s');
    }
  }

  lemma {:induction false} EffectiveWithinMeasure(j: Job, s: State, events: seq<Event>, used: nat)
    requires j.Valid() && WellFormed(j, s) && used <= |events|
    ensures s.status == Sending ==> EffectiveCount(j, s, events, used) <= Measure(j, s)
    decreases |events| - used
  {
    if s.status == Sending && used < |events| {
      StepDecreases(j, s, events[used]);
      EffectiveWithinMeasure(j, Step(j, s, events[used]), events, used + 1);
    }
  }

  /** The loop takes at most `total * (maxRetries + 1)` effective events, whatever arrives. */
  lemma SenderTerminates(j: Job, events: seq<Event>)
    requires j.Valid()
    ensures EffectiveCount(j, INIT, events, 0) <= j.Total() * (j.maxRetries + 1)
  {
    BudgetIsProduct(j.Total(), j.maxRetries);
    EffectiveWithinMeasure(j, INIT, events, 0);
  }

  /** ... and once it has taken that many it has completed or raised. */
  lemma {:induction false} StoppedAtBound(j: Job, s: State, events: seq<Event>, used: nat, sent: seq<seq<byte>>)
    requires j.Valid() && WellFormed(j, s) && used <= |events| && s.status == Sending
    requires EffectiveCount(j, s, events, used) == Measure(j, s)
    ensures Run(j, s, events, used, sent).state.status != Sending
    decreases |events| - used
  {
    StepDecreases(j, s, Timeout);
    if used < |events| {
      var s' := Step(j, s, events[used]);
      StepDecreases(j, s, events[used]);
      if s'.status == Sending {
        EffectiveWithinMeasure(j, s', events, used + 1);
        StoppedAtBound(j, s', events, used + 1, sent + Window(j, s.lastAck));
      }
    }
  }
}
