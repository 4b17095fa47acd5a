/** What the receive loop does over whole lists of events, said without its step function: which ACKs it
    sends, when it raises, and how patient it is. */
module ReceiverRuns {
  import opened Blocks
  import opened Protocol
  import opened Wrappers
  import opened Receiver

  /** The loop's state after n events; once it has stopped it stays as it is. */
  function StateAt(j: Job, events: seq<Event>, n: nat): State
    requires n <= |events|
  {
    if n == 0 then INIT
    else
      var r := StateAt(j, events, n - 1);
      if r.status == Receiving then Step(j, r, events[n - 1]).state else r
  }

  // ---- Events by their bytes -----------------------------------------

  /** A packet without an opcode, an ERROR, or a DATA packet too short for its number. */
  predicate Fatal(ev: Event) {
    ev.Packet? && (|ev.pkt| < 2 || ev.pkt[..2] == [0, 5] || (ev.pkt[..2] == [0, 3] && |ev.pkt| < 4))
  }

  /** A DATA packet. */
  predicate IsData(ev: Event) {
    ev.Packet? && |ev.pkt| >= 4 && ev.pkt[..2] == [0, 3]
  }

  /** A DATA packet with the number of the block that is due. */
  predicate Due(r: State, ev: Event) {
    IsData(ev) && Number(ev.pkt[2], ev.pkt[3]) == r.expected % 65536
  }

  /** The upload would pass its size limit. */
  predicate PastLimit(j: Job, r: State, ev: Event) {
    Due(r, ev) && j.maxSize > 0 && |r.out| + |ev.pkt| - 4 > j.maxSize
  }

  /** The upload would reach a 65536th block without being allowed to. */
  predicate PastNumbers(j: Job, r: State, ev: Event) {
    Due(r, ev) && !j.allowRollover && r.expected >= 65536
  }

  // ---- One event -----------------------------------------------------

  lemma DueIs(j: Job, r: State, block: word)
    requires j.windowsize > 0
    ensures var m := FirstMatch(r.expected, r.expected + j.windowsize - 1, block);
            m == Some(r.expected) <==> block == r.expected % 65536
  {
  }

  /** The loop raises exactly on a malformed or ERROR packet, on a timeout with no retry left, and on the due
      block of an upload that passes its size limit or its block numbers. */
  lemma RaisesExactly(j: Job, r: State, ev: Event)
    requires j.windowsize > 0 && r.status == Receiving
    ensures Step(j, r, ev).state.status == Failed <==>
            || Fatal(ev) || (ev.Timeout? && r.retries >= j.maxRetries)
            || PastLimit(j, r, ev) || PastNumbers(j, r, ev)
  {
    hide FirstMatch, Decode, Drain, Number;
    if ev.Packet? {
      DecodeExact(ev.pkt);
      if IsData(ev) {
        DueIs(j, r, Decode(ev.pkt).block);
      }
    }
  }

  /** Every timeout and every DATA packet that does not end the loop is answered with the ACK of the last block
      written; nothing else is answered. */
  lemma AnswersExactly(j: Job, r: State, ev: Event)
    requires j.windowsize > 0 && r.status == Receiving
    ensures var n := Step(j, r, ev);
            n.ack ==
            if n.state.status != Failed && (ev.Timeout? || IsData(ev)) then Some(n.state.expected - 1) else None
  {
    hide FirstMatch, Decode, Drain, Number;
    if ev.Packet? {
      DecodeExact(ev.pkt);
    }
  }

  /** Only the due block changes what is written; only it and a block ahead change what is buffered; DATA packets
      give back the retries and timeouts use them up. */
  lemma WritesOnlyDue(j: Job, r: State, ev: Event)
    requires j.windowsize > 0 && r.status == Receiving
    ensures var r' := Step(j, r, ev).state;
            && r'.retries == (if ev.Timeout? then r.retries + 1 else if IsData(ev) then 0 else r.retries)
            && (!Due(r, ev) ==> r'.out == r.out && r'.expected == r.expected)
            && (Due(r, ev) && !PastLimit(j, r, ev) ==> r.out + ev.pkt[4..] <= r'.out && r'.expected > r.expected)
            && (!IsData(ev) ==> r'.buffer == r.buffer)
  {
    hide FirstMatch, Decode, Number;
    if ev.Packet? {
      DecodeExact(ev.pkt);
      if IsData(ev) {
        DueIs(j, r, Decode(ev.pkt).block);
        DrainGrows(r.(retries := 0, expected := r.expected + 1, out := r.out + ev.pkt[4..]));
      }
    }
  }

  lemma {:induction false} DrainGrows(r: State)
    ensures r.out <= Drain(r).out && Drain(r).expected >= r.expected
    decreases |r.buffer|
  {
    if r.expected in r.buffer {
      var out := r.out + r.buffer[r.expected];
      DrainGrows(r.(expected := r.expected + 1, buffer := r.buffer - {r.expected}, out := out));
    }
  }

  // ---- The whole loop ------------------------------------------------

  /** The ACKs of the first n events. */
  function AcksUpTo(j: Job, events: seq<Event>, n: nat): seq<seq<byte>>
    requires n <= |events|
  {
    if n == 0 then []
    else
      var r, r' := StateAt(j, events, n - 1), StateAt(j, events, n);
      AcksUpTo(j, events, n - 1)
      + if r.status == Receiving && r'.status != Failed && (events[n - 1].Timeout? || IsData(events[n - 1]))
        then [AckOf(r'.expected - 1)] else []
  }

  /** Opcode 4 and the number modulo 65536. */
  function AckOf(n: int): seq<byte> {
    [0, 4, n % 65536 / 256, n % 65536 % 256]
  }

  lemma AckOfIs(n: int)
    ensures PackAck(Wire(n)) == AckOf(n)
  {
    assert Put16(OP_ACK) == [0, 4];
  }

  lemma {:induction false} OutcomeFrom(j: Job, events: seq<Event>, n: nat) returns (m: nat)
    requires j.windowsize > 0 && n <= |events|
    ensures n <= m <= |events|
    ensures forall i | n <= i < m :: StateAt(j, events, i).status == Receiving
    ensures m < |events| ==> StateAt(j, events, m).status != Receiving
    ensures Run(j, StateAt(j, events, n), events, n, AcksUpTo(j, events, n)) ==
            Outcome(StateAt(j, events, m), AcksUpTo(j, events, m), m)
    decreases |events| - n
  {
    hide Step, PackAck, AckOf, IsData;
    m := n;
    var r := StateAt(j, events, n);
    if r.status == Receiving && n < |events| {
      AnswersExactly(j, r, events[n]);
      AckOfIs(StateAt(j, events, n + 1).expected - 1);
      m := OutcomeFrom(j, events, n + 1);
    }
  }

  /** The loop takes events until it stops or runs out of them, ends in the state they lead to, and has answered
      every timeout and every DATA packet that did not end it. */
  lemma OutcomeIs(j: Job, events: seq<Event>) returns (m: nat)
    requires j.windowsize > 0
    ensures m <= |events| && (forall i | 0 <= i < m :: StateAt(j, events, i).status == Receiving)
    ensures m < |events| ==> StateAt(j, events, m).status != Receiving
    ensures Run(j, INIT, events, 0, []) == Outcome(StateAt(j, events, m), AcksUpTo(j, events, m), m)
  {
    hide Step;
    m := OutcomeFrom(j, events, 0);
  }

  function Repeat(a: seq<byte>, k: nat): seq<seq<byte>> {
    if k == 0 then [] else Repeat(a, k - 1) + [a]
  }

  lemma NextState(j: Job, events: seq<Event>, n: nat)
    requires 0 < n <= |events| && StateAt(j, events, n - 1).status == Receiving
    ensures StateAt(j, events, n) == Step(j, StateAt(j, events, n - 1), events[n - 1]).state
  {
    hide Step;
  }

  lemma TimeoutStep(j: Job, r: State)
    requires r.status == Receiving
    ensures Step(j, r, Timeout).state ==
            r.(retries := r.retries + 1, status := if r.retries < j.maxRetries then Receiving else Failed)
  {
  }

  lemma {:induction false} TimeoutsInARow(j: Job, events: seq<Event>, n: nat, k: nat)
    requires n + k <= |events| && forall i | n <= i < n + k :: events[i].Timeout?
    requires StateAt(j, events, n).status == Receiving && StateAt(j, events, n).retries == 0 && k <= j.maxRetries
    ensures StateAt(j, events, n + k) == StateAt(j, events, n).(retries := k)
    ensures AcksUpTo(j, events, n + k) ==
            AcksUpTo(j, events, n) + Repeat(AckOf(StateAt(j, events, n).expected - 1), k)
  {
    hide Step, StateAt, AckOf;
    var a := AckOf(StateAt(j, events, n).expected - 1);
    if k == 0 {
      assert AcksUpTo(j, events, n) + [] == AcksUpTo(j, events, n);
    } else {
      TimeoutsInARow(j, events, n, k - 1);
      NextState(j, events, n + k);
      TimeoutStep(j, StateAt(j, events, n + k - 1));
      assert AcksUpTo(j, events, n) + Repeat(a, k - 1) + [a] == AcksUpTo(j, events, n) + (Repeat(a, k - 1) + [a]);
    }
  }

  /** From the start, or from a DATA packet, the loop endures exactly `maxRetries` timeouts in a row, and repeats
      the ACK of the last block written for each; the next one ends it unanswered. */
  lemma Patience(j: Job, events: seq<Event>, n: nat, k: nat)
    requires j.windowsize > 0 && n + k == |events| && forall i | n <= i < n + k :: events[i].Timeout?
    requires StateAt(j, events, n).status == Receiving && (n > 0 ==> IsData(events[n - 1]))
    ensures var r := StateAt(j, events, n);
            var o := Run(j, INIT, events, 0, []);
            && (o.state.status == Receiving <==> k <= j.maxRetries)
            && (k > j.maxRetries ==> o.state.status == Failed && o.used == n + j.maxRetries + 1)
            && o.acks == AcksUpTo(j, events, n)
                       + Repeat(AckOf(r.expected - 1), if k <= j.maxRetries then k else j.maxRetries)
  {
    hide Step, StateAt, AckOf, IsData;
    var m := OutcomeIs(j, events);
    NothingUsed(j, events, n);
    ReceivingUpTo(j, events, m, n);
    if k <= j.maxRetries {
      TimeoutsInARow(j, events, n, k);
      ReceivingUpTo(j, events, m, n + k);
    } else {
      var last := n + j.maxRetries;
      TimeoutsInARow(j, events, n, j.maxRetries);
      TimeoutStep(j, StateAt(j, events, last));
      NextState(j, events, last + 1);
      ReceivingUpTo(j, events, m, last);
      assert m == last + 1;
    }
  }

  /** A DATA packet gives all retries back. */
  lemma NothingUsed(j: Job, events: seq<Event>, n: nat)
    requires j.windowsize > 0 && n <= |events| && StateAt(j, events, n).status == Receiving
    requires n > 0 ==> IsData(events[n - 1])
    ensures StateAt(j, events, n).retries == 0
  {
    hide Step;
    if n > 0 {
      WritesOnlyDue(j, StateAt(j, events, n - 1), events[n - 1]);
    }
  }

  lemma ReceivingUpTo(j: Job, events: seq<Event>, m: nat, n: nat)
    requires m <= |events| && n <= |events| && StateAt(j, events, n).status == Receiving
    requires m < |events| ==> StateAt(j, events, m).status != Receiving
    ensures n <= m && (m == n ==> m == |events|)
  {
    hide Step;
    if m < n {
      StoppedStays(j, events, m, n);
    }
  }

  lemma {:induction false} StoppedStays(j: Job, events: seq<Event>, m: nat, n: nat)
    requires m <= n <= |events| && StateAt(j, events, m).status != Receiving
    ensures StateAt(j, events, n) == StateAt(j, events, m)
  {
    hide Step;
    if m < n {
      StoppedStays(j, events, m, n - 1);
    }
  }
}
