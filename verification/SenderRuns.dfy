/** What the send loop does over whole lists of events, said without its step function: which packets it
    sends, when it raises, how patient it is, and that its bound on events is attained. */
module SenderRuns {
  import opened Blocks
  import opened Protocol
  import opened Wrappers
  import opened Sender

  /** The loop's state after n events; once it has stopped it stays as it is. */
  function StateAt(j: Job, events: seq<Event>, n: nat): State
    requires j.Valid() && n <= |events|
  {
    if n == 0 then INIT
    else
      var s := StateAt(j, events, n - 1);
      if s.status == Sending then Step(j, s, events[n - 1]) else s
  }

  /** The bytes of block n: opcode 3, the number modulo 65536, and the slice of the file. */
  function BlockBytes(j: Job, n: nat): seq<byte>
    requires j.Valid() && n > 0
  {
    var lo, hi := Min((n - 1) * j.blksize, |j.data|), Min((n - 1) * j.blksize + j.blksize, |j.data|);
    [0, 3, n % 65536 / 256, n % 256] + j.data[Min(lo, hi)..hi]
  }

  /** The window behind block `acked`: as many blocks as the window or the file has left. */
  function WindowBytes(j: Job, acked: nat): seq<seq<byte>>
    requires j.Valid() && acked <= |j.data| / j.blksize + 1
  {
    var left := |j.data| / j.blksize + 1 - acked;
    seq(if j.windowsize < left then j.windowsize else left, k requires 0 <= k => BlockBytes(j, acked + 1 + k))
  }

  lemma BlockBytesAre(j: Job, n: nat)
    requires j.Valid() && n > 0
    ensures DataPacket(j, n) == BlockBytes(j, n)
  {
    var w := Wire(n);
    assert Hi(w) == n % 65536 / 256 && Lo(w) == n % 256;
    assert Put16(OP_DATA) == [0, 3];
    assert PackData(w, []) == [0, 3, Hi(w), Lo(w)];
    assert PackData(w, Slice(j.data, j.blksize, n)) == [0, 3, Hi(w), Lo(w)] + Slice(j.data, j.blksize, n);
  }

  lemma WindowBytesAre(j: Job, acked: nat)
    requires j.Valid() && acked < j.Total()
    ensures acked < |j.data| / j.blksize + 1 && Window(j, acked) == WindowBytes(j, acked)
  {
    hide DataPacket, BlockBytes;
    forall n: nat | n > 0 ensures DataPacket(j, n) == BlockBytes(j, n) {
      BlockBytesAre(j, n);
    }
    var a, b := Window(j, acked), WindowBytes(j, acked);
    assert |a| == |b|;
    assert forall i | 0 <= i < |a| :: a[i] == b[i];
  }

  /** The windows that went out before each of the first n waits. */
  function SentUpTo(j: Job, events: seq<Event>, n: nat): seq<seq<byte>>
    requires j.Valid() && n <= |events| + 1
  {
    if n == 0 then [] else SentUpTo(j, events, n - 1) + Window(j, StateAt(j, events, n - 1).lastAck)
  }

  lemma {:induction false} StateAtWellFormed(j: Job, events: seq<Event>, n: nat)
    requires j.Valid() && n <= |events|
    ensures WellFormed(j, StateAt(j, events, n))
  {
    hide Step;
    if n > 0 {
      StateAtWellFormed(j, events, n - 1);
      var s := StateAt(j, events, n - 1);
      if s.status == Sending {
        StepKeepsWellFormed(j, s, events[n - 1]);
      }
    }
  }

  /** The loop's outcome from event n on. */
  lemma {:induction false} OutcomeFrom(j: Job, events: seq<Event>, n: nat) returns (m: nat)
    requires j.Valid() && n <= |events|
    ensures n <= m <= |events|
    ensures forall i | n <= i < m :: StateAt(j, events, i).status == Sending
    ensures m < |events| ==> StateAt(j, events, m).status != Sending
    ensures var s := StateAt(j, events, m);
            Run(j, StateAt(j, events, n), events, n, SentUpTo(j, events, n)) ==
            Outcome(s, SentUpTo(j, events, if s.status == Sending then m + 1 else m), m)
    decreases |events| - n
  {
    hide Step, Window;
    m := n;
    if StateAt(j, events, n).status == Sending && n < |events| {
      m := OutcomeFrom(j, events, n + 1);
    }
  }

  /** The loop takes events until it stops or runs out of them, ends in the state they lead to, and has sent
      one window before each of them and one more if it is still waiting. */
  lemma OutcomeIs(j: Job, events: seq<Event>) returns (m: nat)
    requires j.Valid()
    ensures m <= |events| && (forall i | 0 <= i < m :: StateAt(j, events, i).status == Sending)
    ensures m < |events| ==> StateAt(j, events, m).status != Sending
    ensures var s := StateAt(j, events, m);
            Run(j, INIT, events, 0, []) == Outcome(s, SentUpTo(j, events, if s.status == Sending then m + 1 else m), m)
  {
    hide Step, Window;
    m := OutcomeFrom(j, events, 0);
  }

  // ---- What was sent -------------------------------------------------

  /** The i-th window sent starts behind the block acknowledged by then. */
  lemma {:induction false} SentIs(j: Job, events: seq<Event>, n: nat)
    requires j.Valid() && 0 < n <= |events| + 1 && StateAt(j, events, n - 1).status == Sending
    ensures StateAt(j, events, n - 1).lastAck < |j.data| / j.blksize + 1
    ensures SentUpTo(j, events, n) ==
            SentUpTo(j, events, n - 1) + WindowBytes(j, StateAt(j, events, n - 1).lastAck)
  {
    hide Step, Window, WindowBytes;
    StateAtWellFormed(j, events, n - 1);
    WindowBytesAre(j, StateAt(j, events, n - 1).lastAck);
  }

  /** Everything acknowledged was sent: a finished loop has sent every block of the file. */
  lemma {:induction false} AcknowledgedWasSent(j: Job, events: seq<Event>, n: nat, b: nat)
    requires j.Valid() && n <= |events| && 1 <= b <= StateAt(j, events, n).lastAck
    ensures BlockBytes(j, b) in SentUpTo(j, events, n)
  {
    hide Step, DataPacket, BlockBytes;
    var s := StateAt(j, events, n - 1);
    if b <= s.lastAck {
      AcknowledgedWasSent(j, events, n - 1, b);
    } else {
      StateAtWellFormed(j, events, n - 1);
      StepWithinWindow(j, s, events[n - 1]);
      var w := Window(j, s.lastAck);
      assert w[b - s.lastAck - 1] == DataPacket(j, b);
      BlockBytesAre(j, b);
    }
  }

  lemma StepWithinWindow(j: Job, s: State, ev: Event)
    requires j.Valid() && WellFormed(j, s) && s.status == Sending
    ensures Step(j, s, ev).lastAck <= WindowEnd(j, s.lastAck)
  {
  }

  // ---- When it raises ------------------------------------------------

  /** A packet without an opcode, an ERROR, or an ACK too short for its number. */
  predicate Fatal(ev: Event) {
    ev.Packet? && (|ev.pkt| < 2 || ev.pkt[..2] == [0, 5] || (ev.pkt[..2] == [0, 4] && |ev.pkt| < 4))
  }

  /** A packet that reads as an ACK with this number. */
  predicate Acks(ev: Event, number: int) {
    ev.Packet? && |ev.pkt| >= 4 && ev.pkt[..2] == [0, 4] && Number(ev.pkt[2], ev.pkt[3]) == number
  }

  /** How many of the events from index `from` to `to` are timeouts. */
  function Timeouts(events: seq<Event>, from: nat, to: nat): nat
    requires from <= to <= |events|
  {
    if from == to then 0 else Timeouts(events, from, to - 1) + if events[to - 1].Timeout? then 1 else 0
  }

  /** The number of events after which the loop last moved on to new blocks. */
  function LastProgress(j: Job, events: seq<Event>, n: nat): (m: nat)
    requires j.Valid() && n <= |events|
    ensures m <= n
  {
    if n == 0 then 0
    else if StateAt(j, events, n - 1).lastAck != StateAt(j, events, n).lastAck then n
    else LastProgress(j, events, n - 1)
  }

  /** It is 0 or follows an ACK that moved the loop on, and no later event did. */
  lemma {:induction false} LastProgressIs(j: Job, events: seq<Event>, n: nat)
    requires j.Valid() && n <= |events|
    ensures var m := LastProgress(j, events, n);
            && (m > 0 ==> StateAt(j, events, m - 1).lastAck != StateAt(j, events, m).lastAck)
            && forall i | m <= i <= n :: StateAt(j, events, i).lastAck == StateAt(j, events, n).lastAck
  {
    hide StateAt;
    if n > 0 && StateAt(j, events, n - 1).lastAck == StateAt(j, events, n).lastAck {
      LastProgressIs(j, events, n - 1);
    }
  }

  lemma StepCounts(j: Job, s: State, ev: Event)
    requires j.Valid() && WellFormed(j, s) && s.status == Sending
    ensures var s' := Step(j, s, ev);
            s'.retries == if s'.lastAck != s.lastAck then 0 else s.retries + if ev.Timeout? then 1 else 0
  {
  }

  /** The retry counter is the number of timeouts since the loop last moved on. */
  lemma {:induction false} RetriesAre(j: Job, events: seq<Event>, n: nat)
    requires j.Valid() && n <= |events| && (n > 0 ==> StateAt(j, events, n - 1).status == Sending)
    ensures StateAt(j, events, n).retries == Timeouts(events, LastProgress(j, events, n), n)
  {
    hide Step;
    if n > 0 {
      SendingBefore(j, events, n - 1);
      RetriesAre(j, events, n - 1);
      StateAtWellFormed(j, events, n - 1);
      StepCounts(j, StateAt(j, events, n - 1), events[n - 1]);
    }
  }

  lemma SendingBefore(j: Job, events: seq<Event>, n: nat)
    requires j.Valid() && n <= |events| && StateAt(j, events, n).status == Sending
    ensures n > 0 ==> StateAt(j, events, n - 1).status == Sending
  {
    hide Step;
  }

  lemma StepFails(j: Job, s: State, ev: Event)
    requires j.Valid() && WellFormed(j, s) && s.status == Sending
    ensures Step(j, s, ev).status == Failed <==> Fatal(ev) || (ev.Timeout? && s.retries == j.maxRetries)
  {
    hide FirstMatch, Decode;
    if ev.Packet? {
      DecodeExact(ev.pkt);
    }
  }

  /** The loop raises exactly on a malformed or ERROR packet, and on the timeout after `maxRetries` others
      since it last moved on. */
  lemma RaisesExactly(j: Job, events: seq<Event>, n: nat)
    requires j.Valid() && n < |events| && StateAt(j, events, n).status == Sending
    ensures StateAt(j, events, n + 1).status == Failed <==>
            || Fatal(events[n])
            || (events[n].Timeout? && Timeouts(events, LastProgress(j, events, n), n) == j.maxRetries)
  {
    hide Step, Fatal;
    SendingBefore(j, events, n);
    RetriesAre(j, events, n);
    StateAtWellFormed(j, events, n);
    StepFails(j, StateAt(j, events, n), events[n]);
  }

  /** It moves on exactly on an ACK with the number of a block of its window, to the first such block. */
  lemma MovesExactly(j: Job, s: State, ev: Event, b: nat)
    requires j.Valid() && WellFormed(j, s) && s.status == Sending
    requires s.lastAck < b <= s.lastAck + j.windowsize && b <= j.Total() && b <= s.lastAck + 65536
    ensures Step(j, s, ev).lastAck == b <==> Acks(ev, b % 65536)
    ensures Acks(ev, b % 65536) ==> Step(j, s, ev) == State(b, 0, if b == j.Total() then Finished else Sending)
  {
    hide FirstMatch, BlockCount, Decode, Number;
    if ev.Packet? {
      DecodeExact(ev.pkt);
      OnlyMatch(s.lastAck + 1, WindowEnd(j, s.lastAck), b);
    }
  }

  // ---- Patience ------------------------------------------------------

  function Repeat(w: seq<seq<byte>>, k: nat): seq<seq<byte>> {
    if k == 0 then [] else Repeat(w, k - 1) + w
  }

  lemma NextState(j: Job, events: seq<Event>, n: nat)
    requires j.Valid() && 0 < n <= |events| && StateAt(j, events, n - 1).status == Sending
    ensures StateAt(j, events, n) == Step(j, StateAt(j, events, n - 1), events[n - 1])
  {
    hide Step;
  }

  lemma TimeoutStep(j: Job, s: State)
    requires j.Valid() && s.status == Sending
    ensures Step(j, s, Timeout) ==
            s.(retries := s.retries + 1, status := if s.retries < j.maxRetries then Sending else Failed)
  {
  }

  lemma {:induction false} TimeoutsInARow(j: Job, events: seq<Event>, n: nat, k: nat)
    requires j.Valid() && n + k <= |events| && forall i | n <= i < n + k :: events[i].Timeout?
    requires StateAt(j, events, n).status == Sending && StateAt(j, events, n).retries == 0 && k <= j.maxRetries
    ensures StateAt(j, events, n + k) == StateAt(j, events, n).(retries := k)
    ensures SentUpTo(j, events, n + k + 1) ==
            SentUpTo(j, events, n) + Repeat(Window(j, StateAt(j, events, n).lastAck), k + 1)
  {
    hide Window, Step, StateAt;
    var w := Window(j, StateAt(j, events, n).lastAck);
    if k == 0 {
      assert Repeat(w, 1) == [] + w == w;
    } else {
      TimeoutsInARow(j, events, n, k - 1);
      NextState(j, events, n + k);
      TimeoutStep(j, StateAt(j, events, n + k - 1));
      assert SentUpTo(j, events, n) + Repeat(w, k) + w == SentUpTo(j, events, n) + (Repeat(w, k) + w);
    }
  }

  lemma StartState(j: Job, events: seq<Event>)
    requires j.Valid()
    ensures StateAt(j, events, 0) == INIT
  {
  }

  /** From the start, or from an ACK that moved it on, the loop endures exactly `maxRetries` timeouts in a row:
      it is still sending after k of them, and has then sent its window k + 1 times, exactly when k is no
      more; the next one ends it, with nothing more sent. */
  lemma Patience(j: Job, events: seq<Event>, n: nat, k: nat)
    requires j.Valid() && n + k == |events| && forall i | n <= i < n + k :: events[i].Timeout?
    requires StateAt(j, events, n).status == Sending && LastProgress(j, events, n) == n
    ensures var acked := StateAt(j, events, n).lastAck;
            var o := Run(j, INIT, events, 0, []);
            && acked < |j.data| / j.blksize + 1
            && (o.state.status == Sending <==> k <= j.maxRetries)
            && (k > j.maxRetries ==> o.state.status == Failed && o.used == n + j.maxRetries + 1)
            && o.sent == SentUpTo(j, events, n)
                       + Repeat(WindowBytes(j, acked), if k <= j.maxRetries then k + 1 else j.maxRetries + 1)
  {
    hide Window, WindowBytes, Step, BlockCount, StateAt, LastProgress;
    assert INIT == StateAt(j, events, 0) by { StartState(j, events); }
    var m := OutcomeIs(j, events);
    SendingBefore(j, events, n);
    RetriesAre(j, events, n);
    StateAtWellFormed(j, events, n);
    WindowBytesAre(j, StateAt(j, events, n).lastAck);
    SendingUpTo(j, events, m, n);
    if k <= j.maxRetries {
      TimeoutsInARow(j, events, n, k);
      SendingUpTo(j, events, m, n + k);
    } else {
      var last := n + j.maxRetries;
      TimeoutsInARow(j, events, n, j.maxRetries);
      TimeoutStep(j, StateAt(j, events, last));
      NextState(j, events, last + 1);
      SendingUpTo(j, events, m, last);
      assert m == last + 1;
    }
  }

  /** A loop that is still sending after n events has taken them. */
  lemma SendingUpTo(j: Job, events: seq<Event>, m: nat, n: nat)
    requires j.Valid() && m <= |events| && n <= |events| && StateAt(j, events, n).status == Sending
    requires m < |events| ==> StateAt(j, events, m).status != Sending
    ensures n <= m && (m == n ==> m == |events|)
  {
    hide Step;
    if m < n {
      StoppedStays(j, events, m, n);
    }
  }

  lemma {:induction false} StoppedStays(j: Job, events: seq<Event>, m: nat, n: nat)
    requires j.Valid() && m <= n <= |events| && StateAt(j, events, m).status != Sending
    ensures StateAt(j, events, n) == StateAt(j, events, m)
  {
    hide Step;
    if m < n {
      StoppedStays(j, events, m, n - 1);
    }
  }

  // ---- The bound on events is attained -------------------------------

  /** Before each block all retries are used up, then the block is acknowledged. */
  function Slowest(j: Job): seq<Event>
    requires j.Valid()
  {
    var m := j.maxRetries + 1;
    seq(j.Total() * m, i requires 0 <= i => if i % m == j.maxRetries then Packet(PackAck(Wire(i / m + 1))) else Timeout)
  }

  lemma Position(n: nat, t: nat, m: nat)
    requires t < m
    ensures (n * m + t) / m == n && (n * m + t) % m == t
  {
    var i := n * m + t;
    DivMod(i, m);
    Quotient(n, t, i / m, i % m, m);
  }

  lemma Quotient(n: nat, t: nat, q: nat, r: nat, m: nat)
    requires t < m && r < m && n * m + t == q * m + r
    ensures n == q && t == r
  {
    if q < n {
      MulMonotone(q + 1, n, m);
    }
    if n < q {
      MulMonotone(n + 1, q, m);
    }
  }

  /** One more effective event. */
  lemma CountOne(j: Job, s: State, events: seq<Event>, i: nat)
    requires j.Valid() && s.status == Sending && i < |events| && Step(j, s, events[i]) != s
    ensures EffectiveCount(j, s, events, i) == 1 + EffectiveCount(j, Step(j, s, events[i]), events, i + 1)
  {
    hide Step;
  }

  lemma {:induction false} SlowestFrom(j: Job, n: nat, t: nat)
    requires j.Valid() && n < j.Total() && t <= j.maxRetries
    ensures n * (j.maxRetries + 1) + t < |Slowest(j)|
    ensures EffectiveCount(j, State(n, t, Sending), Slowest(j), n * (j.maxRetries + 1) + t)
         == |Slowest(j)| - (n * (j.maxRetries + 1) + t)
    decreases j.Total() - n, j.maxRetries - t
  {
    hide BlockCount, PackAck, FirstMatch, Slowest, Step, EffectiveCount;
    var m, s := j.maxRetries + 1, State(n, t, Sending);
    SlowestAt(j, n, t);
    var i := n * m + t;
    if t < j.maxRetries {
      TimeoutStep(j, s);
      CountOne(j, s, Slowest(j), i);
      SlowestFrom(j, n, t + 1);
    } else {
      SlowestAck(j, n);
      CountOne(j, s, Slowest(j), i);
      assert (n + 1) * m == n * m + m;
      if n + 1 < j.Total() {
        SlowestFrom(j, n + 1, 0);
      } else {
        SlowestLength(j);
        NothingMore(j, State(n + 1, 0, Finished), Slowest(j), i + 1);
      }
    }
  }

  lemma SlowestAck(j: Job, n: nat)
    requires j.Valid() && n < j.Total()
    ensures Step(j, State(n, j.maxRetries, Sending), Packet(PackAck(Wire(n + 1)))) ==
            State(n + 1, 0, if n + 1 < j.Total() then Sending else Finished)
  {
    hide BlockCount, PackAck, FirstMatch, Step;
    AckStep(j, State(n, j.maxRetries, Sending), Wire(n + 1));
    OnlyMatch(n + 1, WindowEnd(j, n), n + 1);
  }

  lemma NothingMore(j: Job, s: State, events: seq<Event>, i: nat)
    requires j.Valid() && i <= |events| && s.status != Sending
    ensures EffectiveCount(j, s, events, i) == 0
  {
  }

  lemma SlowestLength(j: Job)
    requires j.Valid()
    ensures |Slowest(j)| == j.Total() * (j.maxRetries + 1)
  {
    hide BlockCount, PackAck;
  }

  lemma SlowestAt(j: Job, n: nat, t: nat)
    requires j.Valid() && n < j.Total() && t <= j.maxRetries
    ensures n * (j.maxRetries + 1) + t < |Slowest(j)|
    ensures Slowest(j)[n * (j.maxRetries + 1) + t] ==
            if t == j.maxRetries then Packet(PackAck(Wire(n + 1))) else Timeout
  {
    hide BlockCount, PackAck;
    var m := j.maxRetries + 1;
    Position(n, t, m);
    MulMonotone(n + 1, j.Total(), m);
    assert (n + 1) * m == n * m + m;
  }

  /** Some list of events takes the loop exactly as many effective events as `SenderTerminates` allows. */
  lemma BoundIsAttained(j: Job)
    requires j.Valid()
    ensures EffectiveCount(j, INIT, Slowest(j), 0) == j.Total() * (j.maxRetries + 1)
  {
    hide BlockCount, Slowest, EffectiveCount;
    SlowestFrom(j, 0, 0);
    SlowestLength(j);
  }
}
