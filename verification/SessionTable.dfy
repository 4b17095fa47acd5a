/** The C engine's fixed table of 256 sessions, its dispatch of packets and ticks to the transfers
    behind the slots, and its counters (c_core/session.c). */
module SessionTable {
  import opened Blocks
  import opened Protocol
  import opened Wrappers
  import RE = ReadEngine
  import UE = UploadEngine

  const SESS_MAX := 256
  const TID_BASE := 40000
  const TID_RANGE := 20000

  /** What a packet must match to reach a session. */
  datatype Key = Key(ip: seq<byte>, clientPort: word, serverPort: nat)

  /** `Negotiating` waits for the ACK of an OACK; `Over` was refused or aborted before it began. */
  datatype Transfer =
    | Negotiating(c: RE.Config, retrans: nat)
    | Reading(c: RE.Config, s: RE.Session)
    | Writing(p: UE.Policy, u: UE.Upload)
    | Over

  datatype Slot = Free | Busy(key: Key, transfer: Transfer)

  /** The outcomes of disk operations while one packet or tick is handled. */
  datatype Disk = Disk(readable: nat, preReadable: nat, writeOk: bool, commitOk: bool)

  /** Negotiating or transferring. */
  predicate Live(t: Transfer) {
    match t
    case Negotiating(_, _) => true
    case Reading(_, s) => s.state == RE.SendRrq
    case Writing(_, u) => u.state == UE.Receiving
    case Over => false
  }

  /** The timers let go of the session altogether. */
  predicate Gone(t: Transfer) {
    match t
    case Negotiating(_, retrans) => retrans > RE.MAX_RETRANS
    case Reading(_, s) => s.state == RE.Free
    case Writing(_, u) => u.state == UE.Released
    case Over => false
  }

  predicate Completed(t: Transfer) {
    (t.Reading? && t.s.completed) || (t.Writing? && t.u.result == UE.Committed)
  }

  predicate Failed(t: Transfer) {
    t.Writing? && (t.u.result == UE.WriteFailed || t.u.result == UE.CommitFailed)
  }

  /** A session that is still going has not been counted yet. */
  predicate Consistent(t: Transfer) {
    && (Live(t) ==> !Completed(t) && !Failed(t))
    && (t.Negotiating? ==> t.retrans <= RE.MAX_RETRANS)
    && (t.Writing? && t.u.state == UE.Receiving ==> t.u.result == UE.Pending)
  }

  // ---- What one packet or tick does to one transfer ----------------------

  function Deliver(t: Transfer, msg: Msg, d: Disk): Transfer {
    match msg
    case Ack(block) =>
      (match t
       case Negotiating(c, retrans) =>
         if block == 0 then Reading(c, RE.Begin(c, retrans, d.readable, d.preReadable)) else t
       case Reading(c, s) => if Live(t) then Reading(c, RE.OnAck(c, s, block, d.readable, d.preReadable)) else t
       case _ => t)
    case Data(block, payload) =>
      if t.Writing? && Live(t) then Writing(t.p, UE.OnData(t.p, t.u, block, payload, d.writeOk, d.commitOk)) else t
    case Error =>
      (match t
       case Negotiating(_, _) => Over
       case Reading(c, s) => Reading(c, s.(state := RE.Done))
       case Writing(p, u) => Writing(p, if Live(t) then u.(state := UE.Finished, result := UE.Aborted) else u)
       case Over => Over)
    case _ => t
  }

  /** A live session's timer has run out. */
  function Expire(t: Transfer, d: Disk): Transfer {
    match t
    case Negotiating(c, retrans) => Negotiating(c, retrans + 1)
    case Reading(c, s) => Reading(c, RE.OnTimeout(c, s, d.readable, d.preReadable))
    case Writing(p, u) => Writing(p, UE.OnTimer(u))
    case Over => Over
  }

  /** A request: what it asks to read or write (`None` when the file is missing or refused) and
      whether it carries options to negotiate. */
  datatype Request =
    | ReadRequest(c: Option<RE.Config>, options: bool)
    | WriteRequest(p: Option<UE.Policy>, options: bool)

  function Begun(r: Request, d: Disk): Transfer {
    match r
    case ReadRequest(None, _) => Over
    case ReadRequest(Some(c), options) =>
      if options then Negotiating(c, 0) else Reading(c, RE.Begin(c, 0, d.readable, d.preReadable))
    case WriteRequest(None, _) => Over
    case WriteRequest(Some(p), options) => Writing(p, UE.Opened(!options))
  }

  lemma BegunOk(r: Request, d: Disk)
    ensures Consistent(Begun(r, d)) && !Gone(Begun(r, d))
  {
    hide RE.SendWindow;
    if r.ReadRequest? && r.c.Some? && !r.options {
      SendStep(r.c.value, RE.Unsent(0), d.readable, d.preReadable);
    }
  }

  lemma ReadStep(c: RE.Config, s: RE.Session, ack: word, readable: nat, preReadable: nat)
    requires s.state == RE.SendRrq && !s.completed
    ensures var s' := RE.OnAck(c, s, ack, readable, preReadable);
            s'.state != RE.Free && (s'.completed ==> s'.state == RE.Done)
  {
    hide RE.FillWindow, RE.MapAck, RE.U32;
  }

  lemma SendStep(c: RE.Config, s: RE.Session, readable: nat, preReadable: nat)
    requires s.state == RE.SendRrq && !s.completed
    ensures var s' := RE.SendWindow(c, s, readable, preReadable); s'.state != RE.Free && !s'.completed
  {
    hide RE.FillWindow;
  }

  /** A packet ends a session at most once, in at most one of the two ways that are counted, and
      never frees its slot. */
  lemma DeliverKeeps(t: Transfer, msg: Msg, d: Disk)
    requires Consistent(t) && (t.Reading? ==> t.s.state != RE.Free) && (t.Writing? ==> t.u.state != UE.Released)
    ensures var t' := Deliver(t, msg, d);
            && Consistent(t') && (t'.Reading? ==> t'.s.state != RE.Free) && (t'.Writing? ==> t'.u.state != UE.Released)
            && !(Completed(t') && Failed(t'))
            && (!Live(t) ==> !Live(t') && (Completed(t') <==> Completed(t)) && (Failed(t') <==> Failed(t)))
  {
    hide RE.OnAck, RE.SendWindow, UE.MapBlock;
    match msg
    case Ack(block) =>
      if t.Reading? && Live(t) {
        ReadStep(t.c, t.s, block, d.readable, d.preReadable);
      } else if t.Negotiating? {
        SendStep(t.c, RE.Unsent(t.retrans), d.readable, d.preReadable);
      }
    case _ =>
  }

  lemma ExpireKeeps(t: Transfer, d: Disk)
    requires Consistent(t) && Live(t)
    ensures var t' := Expire(t, d); !Completed(t') && !Failed(t') && (!Gone(t') ==> Consistent(t'))
  {
    hide RE.SendWindow;
    if t.Reading? {
      var s' := t.s.(retrans := t.s.retrans + 1, preValid := false);
      SendStep(t.c, s', d.readable, d.preReadable);
    }
  }

  // ---- The history of a slot -----------------------------------------------

  /** What reaches a session: a packet with its addresses, or its own timer. */
  datatype Input = Heard(msg: Msg, d: Disk) | TimedOut(d: Disk)

  /** The request that opened a slot and everything that reached it since. */
  datatype History = History(request: Request, d: Disk, inputs: seq<Input>)

  function Also(h: History, i: Input): History {
    h.(inputs := h.inputs + [i])
  }

  function Before(h: History): History
    requires h.inputs != []
  {
    h.(inputs := h.inputs[..|h.inputs| - 1])
  }

  /** What the dispatch has made of it. */
  function Current(h: History): Transfer
    decreases |h.inputs|
  {
    if h.inputs == [] then Begun(h.request, h.d)
    else
      Taken(Current(Before(h)), h.inputs[|h.inputs| - 1])
  }

  function Taken(t: Transfer, i: Input): Transfer {
    match i
    case Heard(msg, d) => Deliver(t, msg, d)
    case TimedOut(d) => Expire(t, d)
  }

  /** No timer ran out of a session that was over, and none let go of it. */
  predicate Held(h: History)
    decreases |h.inputs|
  {
    && !Gone(Current(h))
    && (h.inputs != [] ==>
          Held(Before(h)) && (h.inputs[|h.inputs| - 1].TimedOut? ==> Live(Current(Before(h)))))
  }

  lemma HeldOn(h: History, i: Input)
    requires Held(h) && (i.TimedOut? ==> Live(Current(h)))
    ensures Current(Also(h, i)) == Taken(Current(h), i)
    ensures !Gone(Current(Also(h, i))) ==> Held(Also(h, i))
  {
    hide Taken, Gone, Live;
    assert Before(Also(h, i)) == h;
  }

  /** A busy slot is what its history made of it. */
  predicate Recorded(s: Slot, h: History) {
    s.Busy? ==> Held(h) && s.transfer == Current(h)
  }

  // ---- Counting slots ------------------------------------------------------

  predicate Counted(s: Slot, live: bool) {
    s.Busy? && (live ==> Live(s.transfer))
  }

  /** Slots in use, or those of them still live. */
  function Count(slots: seq<Slot>, live: bool): nat {
    if slots == [] then 0
    else Count(slots[..|slots| - 1], live) + (if Counted(slots[|slots| - 1], live) then 1 else 0)
  }

  lemma {:induction false} CountUpdate(slots: seq<Slot>, i: nat, s: Slot, live: bool)
    requires i < |slots|
    ensures Count(slots[i := s], live) ==
            Count(slots, live) - (if Counted(slots[i], live) then 1 else 0) + (if Counted(s, live) then 1 else 0)
  {
    hide Counted;
    var n := |slots| - 1;
    if i == n {
      assert slots[i := s][..n] == slots[..n];
    } else {
      CountUpdate(slots[..n], i, s, live);
      assert slots[i := s][..n] == slots[..n][i := s];
    }
  }

  lemma {:induction false} CountFree(slots: seq<Slot>)
    requires forall i | 0 <= i < |slots| :: slots[i].Free?
    ensures Count(slots, true) == Count(slots, false) == 0
  {
    if slots != [] {
      CountFree(slots[..|slots| - 1]);
    }
  }

  lemma {:induction false} CountBusy(slots: seq<Slot>)
    requires forall i | 0 <= i < |slots| :: slots[i].Busy?
    ensures Count(slots, false) == |slots|
  {
    if slots != [] {
      CountBusy(slots[..|slots| - 1]);
    }
  }

  /** A slot as it stands between packets. */
  predicate SlotOk(s: Slot) {
    s.Busy? ==> Consistent(s.transfer) && !Gone(s.transfer)
  }

  class SessionManager {
    const slots: array<Slot>
    var maxSessions: nat
    var nextTid: nat
    var active: nat
    var total: nat
    var completed: nat
    var failed: nat
    var rrqCount: nat
    var wrqCount: nat
    /** The request and the inputs behind each busy slot. */
    ghost var histories: seq<History>

    /** The accounting that every packet and every tick keeps. */
    ghost predicate Valid()
      reads this, slots
    {
      && slots.Length == SESS_MAX
      && nextTid < 65536
      && (forall i | 0 <= i < SESS_MAX :: SlotOk(slots[i]))
      && active == Count(slots[..], false)
      && total == rrqCount + wrqCount
      && completed + failed + Count(slots[..], true) <= total
      && |histories| == SESS_MAX
      && (forall i | 0 <= i < SESS_MAX :: Recorded(slots[i], histories[i]))
    }

    constructor (maxSessions: nat)
      ensures Valid() && fresh(slots) && this.maxSessions == maxSessions && active == total == nextTid == 0
    {
      slots := new Slot[SESS_MAX](_ => Slot.Free);
      this.maxSessions := maxSessions;
      nextTid, active, total, completed, failed, rrqCount, wrqCount := 0, 0, 0, 0, 0, 0, 0;
      histories := seq(SESS_MAX, _ => History(ReadRequest(None, false), Disk(0, 0, false, false), []));
      new;
      CountFree(slots[..]);
    }

    /** The number of sessions that may be active at once. */
    function Cap(): nat
      reads this
    {
      if maxSessions == 0 || maxSessions > SESS_MAX then SESS_MAX else maxSessions
    }

    /** First free slot below the cap, or -1. */
    method AllocSlot() returns (i: int)
      requires Valid()
      ensures active >= Cap() ==> i == -1
      ensures active < Cap() ==> 0 <= i < SESS_MAX && slots[i].Free? && forall k | 0 <= k < i :: slots[k].Busy?
    {
      if active >= Cap() {
        return -1;
      }
      i := 0;
      while i < SESS_MAX
        invariant 0 <= i <= SESS_MAX
        invariant forall k | 0 <= k < i :: slots[k].Busy?
      {
        if slots[i].Free? {
          return;
        }
        i := i + 1;
      }
      CountBusy(slots[..]);
      i := -1;
    }

    /** The first session a packet belongs to, or -1. */
    method Find(key: Key) returns (i: int)
      requires Valid()
      ensures i == -1 ==> forall k | 0 <= k < SESS_MAX :: slots[k].Busy? ==> slots[k].key != key
      ensures i != -1 ==> 0 <= i < SESS_MAX && slots[i].Busy? && slots[i].key == key
                          && forall k | 0 <= k < i :: slots[k].Busy? ==> slots[k].key != key
    {
      i := 0;
      while i < SESS_MAX
        invariant 0 <= i <= SESS_MAX
        invariant forall k | 0 <= k < i :: slots[k].Busy? ==> slots[k].key != key
      {
        if slots[i].Busy? && slots[i].key == key {
          return;
        }
        i := i + 1;
      }
      i := -1;
    }

    /** Takes the next server port. */
    method TakeTid() returns (port: nat)
      requires nextTid < 65536
      modifies this`nextTid
      ensures port == Tid(old(nextTid)) && nextTid == NextCounter(old(nextTid))
    {
      port := TID_BASE + nextTid % TID_RANGE;
      nextTid := (nextTid + 1) % 65536;
    }

    method SetSlot(i: nat, s: Slot)
      requires slots.Length == SESS_MAX && i < SESS_MAX
      modifies slots
      ensures slots[..] == old(slots[..])[i := s]
      ensures forall live :: Count(slots[..], live) ==
                old(Count(slots[..], live))
                - (if Counted(old(slots[i]), live) then 1 else 0) + (if Counted(s, live) then 1 else 0)
    {
      hide Counted;
      CountUpdate(slots[..], i, s, true);
      CountUpdate(slots[..], i, s, false);
      ghost var before := slots[..];
      slots[i] := s;
      assert slots[..] == before[i := s];
    }

    /** A read or write request; `slot` is -1 when the server is busy. */
    method OnRequest(r: Request, ip: seq<byte>, clientPort: word, d: Disk) returns (slot: int, port: nat)
      requires Valid()
      modifies this, slots
      ensures Valid() && maxSessions == old(maxSessions)
      ensures slot == -1 <==> old(active) >= if 1 <= maxSessions <= 256 then maxSessions else 256
      ensures port == Tid(old(nextTid)) && nextTid == NextCounter(old(nextTid))
      ensures completed == old(completed) && failed == old(failed)
      ensures slot == -1 ==> slots[..] == old(slots[..]) && active == old(active) && total == old(total)
      ensures slot == -1 ==> histories == old(histories)
      ensures slot != -1 ==>
                && 0 <= slot < SESS_MAX && old(slots[slot]).Free?
                && slots[..] == old(slots[..])[slot := Busy(Key(ip, clientPort, port), Begun(r, d))]
                && (forall k | 0 <= k < slot :: old(slots[k]).Busy?)
                && histories == old(histories)[slot := History(r, d, [])]
                && active == old(active) + 1 <= Cap()
                && total == old(total) + 1
                && rrqCount == old(rrqCount) + (if r.ReadRequest? then 1 else 0)
    {
      hide Consistent, Gone, Begun, Deliver, Expire;
      slot := AllocSlot();
      port := TakeTid();
      if slot == -1 {
        return;
      }
      total, active := total + 1, active + 1;
      if r.WriteRequest? {
        wrqCount := wrqCount + 1;
      } else {
        rrqCount := rrqCount + 1;
      }
      BegunOk(r, d);
      SetSlot(slot, Busy(Key(ip, clientPort, port), Begun(r, d)));
      histories := histories[slot := History(r, d, [])];
    }

    /** Any other packet: it reaches the first session with its addresses, or nobody. */
    method OnPacket(key: Key, pkt: seq<byte>, d: Disk) returns (i: int)
      requires Valid()
      modifies this, slots
      ensures Valid() && maxSessions == old(maxSessions) && active == old(active) && total == old(total)
      ensures i == -1 <==> forall k | 0 <= k < SESS_MAX :: old(slots[k]).Busy? ==> old(slots[k]).key != key
      ensures i == -1 ==> slots[..] == old(slots[..]) && completed == old(completed) && failed == old(failed)
      ensures i != -1 ==>
                && 0 <= i < SESS_MAX && old(slots[i]).Busy? && old(slots[i]).key == key
                && (forall k | 0 <= k < i :: old(slots[k]).Busy? ==> old(slots[k]).key != key)
                && var t, t' := old(slots[i]).transfer, Deliver(old(slots[i]).transfer, Decode(pkt), d);
                   && slots[..] == old(slots[..])[i := Busy(key, t')]
                   && completed == old(completed) + (if Completed(t') && !Completed(t) then 1 else 0)
                   && failed == old(failed) + (if Failed(t') && !Failed(t) then 1 else 0)
      ensures histories ==
              if i == -1 then old(histories) else old(histories)[i := Also(old(histories)[i], Heard(Decode(pkt), d))]
    {
      hide Consistent, Gone, Live, Deliver, Completed, Failed, Decode, Held, Current;
      i := Find(key);
      if i == -1 {
        return;
      }
      var t := slots[i].transfer;
      var t' := Deliver(t, Decode(pkt), d);
      StillOk(t, Decode(pkt), d);
      SetSlot(i, Busy(key, t'));
      HeldOn(histories[i], Heard(Decode(pkt), d));
      histories := histories[i := Also(histories[i], Heard(Decode(pkt), d))];
      if Completed(t') && !Completed(t) {
        completed := completed + 1;
      }
      if Failed(t') && !Failed(t) {
        failed := failed + 1;
      }
    }

    /** One slot of a tick: a finished session is freed; an expired one retries or is freed. */
    method TickSlot(i: nat, expired: bool, d: Disk)
      requires Valid() && i < SESS_MAX
      modifies this`active, this`histories, slots
      ensures Valid() && active <= old(active)
      ensures slots[..] == old(slots[..])[i := Ticked(old(slots[i]), expired, d)]
      ensures histories == old(histories)[i := TickedHistory(old(slots[i]), old(histories)[i], expired, d)]
    {
      hide Consistent, Live, Gone, Expire, Completed, Failed, Held, Current;
      if slots[i].Free? {
        return;
      }
      var s := slots[i];
      if !Live(s.transfer) {
        SetSlot(i, Slot.Free);
        active := active - 1;
      } else if expired {
        var t' := Expire(s.transfer, d);
        ExpiredOk(s.transfer, d);
        HeldOn(histories[i], TimedOut(d));
        histories := histories[i := Also(histories[i], TimedOut(d))];
        if Gone(t') {
          SetSlot(i, Slot.Free);
          active := active - 1;
        } else {
          SetSlot(i, s.(transfer := t'));
        }
      }
    }

    method Tick(expired: seq<bool>, disks: seq<Disk>)
      requires Valid() && |expired| == |disks| == SESS_MAX
      modifies this`active, this`histories, slots
      ensures Valid() && active <= old(active)
      ensures forall i | 0 <= i < SESS_MAX :: slots[i] == Ticked(old(slots[i]), expired[i], disks[i])
      ensures forall i | 0 <= i < SESS_MAX ::
                histories[i] == TickedHistory(old(slots[i]), old(histories)[i], expired[i], disks[i])
    {
      hide Ticked, SlotOk, TickedHistory, Recorded;
      for i := 0 to SESS_MAX
        invariant Valid() && active <= old(active)
        invariant forall k | 0 <= k < i :: slots[k] == Ticked(old(slots[k]), expired[k], disks[k])
        invariant forall k | 0 <= k < i ::
                    histories[k] == TickedHistory(old(slots[k]), old(histories)[k], expired[k], disks[k])
        invariant forall k | i <= k < SESS_MAX :: slots[k] == old(slots[k]) && histories[k] == old(histories)[k]
      {
        TickSlot(i, expired[i], disks[i]);
      }
    }
  }

  function Ticked(s: Slot, expired: bool, d: Disk): Slot {
    if s.Free? then s
    else if !Live(s.transfer) then Slot.Free
    else if !expired then s
    else
      var t' := Expire(s.transfer, d);
      if Gone(t') then Slot.Free else s.(transfer := t')
  }

  /** A timer that ran out of a session that is going becomes part of its history. */
  function TickedHistory(s: Slot, h: History, expired: bool, d: Disk): History {
    if s.Busy? && Live(s.transfer) && expired then Also(h, TimedOut(d)) else h
  }

  /** What the table needs to know of a delivery. */
  lemma StillOk(t: Transfer, msg: Msg, d: Disk)
    requires Consistent(t) && !Gone(t)
    ensures var t' := Deliver(t, msg, d);
            && Consistent(t') && !Gone(t')
            && (!Live(t) ==> !Live(t') && (Completed(t') <==> Completed(t)) && (Failed(t') <==> Failed(t)))
            && (Live(t') ==> !Completed(t') && !Failed(t'))
            && !(Completed(t') && Failed(t'))
  {
    hide Deliver;
    DeliverKeeps(t, msg, d);
  }

  lemma ExpiredOk(t: Transfer, d: Disk)
    requires Consistent(t) && Live(t)
    ensures var t' := Expire(t, d); !Gone(t') ==> Consistent(t')
  {
    hide Expire;
    ExpireKeeps(t, d);
  }

  // ---- Server ports ---------------------------------------------------

  /** The port made from a counter value; the counter is 16 bits wide. */
  function Tid(counter: nat): nat {
    TID_BASE + counter % 20000
  }

  function NextCounter(counter: nat): nat {
    (counter + 1) % 65536
  }

  /** The counter after k allocations. */
  function CounterAfter(counter: nat, k: nat): nat {
    if k == 0 then counter else NextCounter(CounterAfter(counter, k - 1))
  }

  lemma {:induction false} CounterAfterIs(counter: nat, k: nat)
    requires counter < 65536
    ensures CounterAfter(counter, k) == (counter + k) % 65536
  {
    if k > 0 {
      CounterAfterIs(counter, k - 1);
    }
  }

  /** While the 16-bit counter does not start over, ports repeat exactly every 20000 allocations. */
  lemma PortsRepeatIff(counter: nat, j: nat, k: nat)
    requires j <= k && counter + k < 65536
    ensures Tid(CounterAfter(counter, j)) == Tid(CounterAfter(counter, k)) <==> (k - j) % 20000 == 0
    ensures 40000 <= Tid(CounterAfter(counter, k)) <= 59999
  {
    hide CounterAfter;
    CounterAfterIs(counter, j);
    CounterAfterIs(counter, k);
    RemaindersAgreeIff(counter + j, counter + k);
  }

  lemma RemaindersAgreeIff(x: nat, y: nat)
    requires x <= y
    ensures x % 20000 == y % 20000 <==> (y - x) % 20000 == 0
  {
  }

  /** From any counter value, 5536 consecutive allocations give pairwise different ports in
      40000..59999. */
  lemma TidsDistinct(counter: nat, j: nat, k: nat)
    requires counter < 65536 && j < k < 5536
    ensures 40000 <= Tid(CounterAfter(counter, j)) <= 59999
    ensures Tid(CounterAfter(counter, j)) != Tid(CounterAfter(counter, k))
  {
    hide CounterAfter;
    CounterAfterIs(counter, j);
    CounterAfterIs(counter, k);
    RemaindersDiffer(counter + j, counter + k);
  }

  lemma RemaindersDiffer(x: nat, y: nat)
    requires x < y < x + 5536 && y < 131072
    ensures x % 65536 % 20000 != y % 65536 % 20000
  {
    var a, b := x % 65536, y % 65536;
    assert a == x || a == x - 65536;
    assert b == y || b == y - 65536;
    assert a / 20000 <= 3 && b / 20000 <= 3;
  }

  /** A 5537th allocation can repeat a port. */
  lemma TidBoundExact()
    ensures Tid(CounterAfter(60000, 0)) == Tid(CounterAfter(60000, 5536))
  {
    hide CounterAfter;
    CounterAfterIs(60000, 0);
    CounterAfterIs(60000, 5536);
  }
}
