/** The slots of the session table against the engines: whatever requests, packets and ticks the table has
    handled, each busy slot is a run of `ReadEngine` or of `UploadEngine` over exactly the ACKs, DATA packets,
    ERRORs and timeouts that reached it, so what is proved of every run holds of every slot. */
module SessionRuns {
  import opened Blocks
  import opened Protocol
  import opened Wrappers
  import opened SessionTable
  import RE = ReadEngine
  import UE = UploadEngine

  // ---- What a history means ------------------------------------------

  /** The inputs a download reacts to, behind its start. */
  function ReadRun(start: RE.Run, inputs: seq<Input>): RE.Run {
    if inputs == [] then start
    else
      var run := ReadRun(start, inputs[..|inputs| - 1]);
      match inputs[|inputs| - 1]
      case Heard(Ack(b), d) => RE.Then(run, RE.Ack(b, d.readable, d.preReadable))
      case Heard(Error, _) => RE.Then(run, RE.ClientError)
      case TimedOut(d) => RE.Then(run, RE.Expire(d.readable, d.preReadable))
      case _ => run
  }

  /** The inputs an upload reacts to. */
  function WriteRun(start: UE.Run, inputs: seq<Input>): UE.Run {
    if inputs == [] then start
    else
      var run := WriteRun(start, inputs[..|inputs| - 1]);
      match inputs[|inputs| - 1]
      case Heard(Data(b, payload), d) => UE.Run.Then(run, UE.Block(b, payload, d.writeOk, d.commitOk))
      case Heard(Error, _) => UE.Run.Then(run, UE.ClientError)
      case TimedOut(_) => UE.Run.Then(run, UE.Timer)
      case _ => run
  }

  predicate AckZero(i: Input) {
    i.Heard? && i.msg == Ack(0)
  }

  /** What ends the wait for the ACK of an OACK: that ACK, or an ERROR. */
  predicate Decisive(i: Input) {
    AckZero(i) || (i.Heard? && i.msg.Error?)
  }

  /** The first decisive input, or how many there are. */
  function FirstDecisive(inputs: seq<Input>): (k: nat)
    ensures k <= |inputs| && (k < |inputs| ==> Decisive(inputs[k]))
    ensures forall i | 0 <= i < k :: !Decisive(inputs[i])
  {
    if inputs == [] then 0
    else
      var k := FirstDecisive(inputs[..|inputs| - 1]);
      if k < |inputs| - 1 then k else if Decisive(inputs[|inputs| - 1]) then |inputs| - 1 else |inputs|
  }

  function Timeouts(inputs: seq<Input>): nat {
    if inputs == [] then 0
    else Timeouts(inputs[..|inputs| - 1]) + if inputs[|inputs| - 1].TimedOut? then 1 else 0
  }

  /** The download behind a history, if it has one by now: at once without options, otherwise from the first
      ACK 0 that no ERROR came before, with the retries spent while waiting for it. */
  function DownloadOf(h: History): Option<RE.Run> {
    match h.request
    case ReadRequest(Some(_), false) => Some(ReadRun(RE.Started(0, h.d.readable, h.d.preReadable), h.inputs))
    case ReadRequest(Some(_), true) =>
      var k := FirstDecisive(h.inputs);
      if k < |h.inputs| && AckZero(h.inputs[k]) then
        var d := h.inputs[k].d;
        Some(ReadRun(RE.Started(Timeouts(h.inputs[..k]), d.readable, d.preReadable), h.inputs[k + 1..]))
      else None
    case _ => None
  }

  /** What a slot with this history is. */
  function Meaning(h: History): Transfer {
    match h.request
    case ReadRequest(Some(c), options) =>
      var run := DownloadOf(h);
      if run.Some? then Reading(c, RE.Exec(c, run.value))
      else if FirstDecisive(h.inputs) < |h.inputs| then Over
      else Negotiating(c, Timeouts(h.inputs))
    case WriteRequest(Some(p), options) => Writing(p, UE.Exec(p, WriteRun(UE.Start(!options), h.inputs)))
    case _ => Over
  }

  // ---- The dispatch follows it ---------------------------------------

  lemma ReadStep(c: RE.Config, s: RE.Session, i: Input)
    requires s.state != RE.Free && (i.TimedOut? ==> s.state == RE.SendRrq)
    ensures var s' := match i
              case Heard(Ack(b), d) => RE.Step(c, s, RE.Ack(b, d.readable, d.preReadable))
              case Heard(Error, _) => RE.Step(c, s, RE.ClientError)
              case TimedOut(d) => RE.Step(c, s, RE.Expire(d.readable, d.preReadable))
              case _ => s;
            Taken(Reading(c, s), i) == Reading(c, s')
  {
    hide RE.OnAck, RE.OnTimeout;
  }

  lemma WriteStep(p: UE.Policy, u: UE.Upload, i: Input)
    requires u.state != UE.Released && (i.TimedOut? ==> u.state == UE.Receiving)
    ensures var u' := match i
              case Heard(Data(b, payload), d) => UE.Step(p, u, UE.Block(b, payload, d.writeOk, d.commitOk))
              case Heard(Error, _) => UE.Step(p, u, UE.ClientError)
              case TimedOut(_) => UE.Step(p, u, UE.Timer)
              case _ => u;
            Taken(Writing(p, u), i) == Writing(p, u')
  {
    hide UE.OnData, UE.OnTimer;
  }

  lemma {:induction false} DownloadRuns(c: RE.Config, start: RE.Run, inputs: seq<Input>, t: Transfer)
    requires inputs != [] && t == Reading(c, RE.Exec(c, ReadRun(start, inputs[..|inputs| - 1])))
    requires !Gone(t) && (inputs[|inputs| - 1].TimedOut? ==> Live(t))
    ensures Taken(t, inputs[|inputs| - 1]) == Reading(c, RE.Exec(c, ReadRun(start, inputs)))
  {
    hide RE.Step;
    ReadStep(c, t.s, inputs[|inputs| - 1]);
  }

  lemma {:induction false} UploadRuns(p: UE.Policy, start: UE.Run, inputs: seq<Input>, t: Transfer)
    requires inputs != [] && t == Writing(p, UE.Exec(p, WriteRun(start, inputs[..|inputs| - 1])))
    requires !Gone(t) && (inputs[|inputs| - 1].TimedOut? ==> Live(t))
    ensures Taken(t, inputs[|inputs| - 1]) == Writing(p, UE.Exec(p, WriteRun(start, inputs)))
  {
    hide UE.Step;
    WriteStep(p, t.u, inputs[|inputs| - 1]);
  }

  /** A session that waits for the ACK of its OACK. */
  lemma WaitingStep(h: History, t: Transfer)
    requires h.inputs != [] && h.request.ReadRequest? && h.request.c.Some? && h.request.options
    requires FirstDecisive(Before(h).inputs) == |h.inputs| - 1
    requires t == Negotiating(h.request.c.value, Timeouts(Before(h).inputs))
    ensures Taken(t, h.inputs[|h.inputs| - 1]) == Meaning(h)
  {
    hide RE.SendWindow;
    var n := |h.inputs| - 1;
    var i := h.inputs[n];
    assert h.inputs[..n] == Before(h).inputs;
    if AckZero(i) {
      assert FirstDecisive(h.inputs) == n && h.inputs[n + 1..] == [];
    }
  }

  /** One that has begun to transfer. */
  lemma BegunStep(h: History, t: Transfer)
    requires h.inputs != [] && h.request.ReadRequest? && h.request.c.Some?
    requires DownloadOf(Before(h)).Some? && t == Meaning(Before(h))
    requires !Gone(t) && (h.inputs[|h.inputs| - 1].TimedOut? ==> Live(t))
    ensures Taken(t, h.inputs[|h.inputs| - 1]) == Meaning(h)
  {
    hide RE.Exec, Taken, ReadRun, Gone, Live, Timeouts;
    var n, c := |h.inputs| - 1, h.request.c.value;
    assert h.inputs[..n] == Before(h).inputs;
    if h.request.options {
      var k := FirstDecisive(Before(h).inputs);
      assert FirstDecisive(h.inputs) == k && h.inputs[..k] == Before(h).inputs[..k];
      var rest := h.inputs[k + 1..];
      assert rest[..|rest| - 1] == Before(h).inputs[k + 1..] && rest[|rest| - 1] == h.inputs[n];
      var d := h.inputs[k].d;
      DownloadRuns(c, RE.Started(Timeouts(h.inputs[..k]), d.readable, d.preReadable), rest, t);
    } else {
      DownloadRuns(c, RE.Started(0, h.d.readable, h.d.preReadable), h.inputs, t);
    }
  }

  /** One that was aborted while it waited, or was refused. */
  lemma OverStep(h: History)
    requires h.inputs != [] && Meaning(Before(h)) == Over
    ensures Meaning(h) == Over && Taken(Over, h.inputs[|h.inputs| - 1]) == Over
  {
    hide RE.Exec, UE.Exec, ReadRun, WriteRun;
    var n := |h.inputs| - 1;
    assert h.inputs[..n] == Before(h).inputs;
    if h.request.ReadRequest? && h.request.c.Some? {
      var k := FirstDecisive(Before(h).inputs);
      assert FirstDecisive(h.inputs) == k;
    }
  }

  /** Whatever a slot has been through, it is what its history means. */
  lemma {:induction false} CurrentIsMeaning(h: History)
    requires Held(h)
    ensures Current(h) == Meaning(h)
    decreases |h.inputs|
  {
    hide Gone, Live, Taken, RE.Step, RE.SendWindow, Timeouts;
    if h.inputs == [] {
      StartMeans(h);
    } else {
      CurrentIsMeaning(Before(h));
      var t, n := Current(Before(h)), |h.inputs| - 1;
      assert h.inputs[..n] == Before(h).inputs;
      NotGoneBefore(h);
      if t == Over {
        OverStep(h);
      } else if h.request.WriteRequest? {
        UploadRuns(h.request.p.value, UE.Start(!h.request.options), h.inputs, t);
      } else if DownloadOf(Before(h)).Some? {
        BegunStep(h, t);
      } else {
        WaitingStep(h, t);
      }
    }
  }

  lemma NotGoneBefore(h: History)
    requires Held(h) && h.inputs != []
    ensures !Gone(Current(Before(h))) && (h.inputs[|h.inputs| - 1].TimedOut? ==> Live(Current(Before(h))))
  {
    hide Gone, Live, Current;
  }

  lemma StartMeans(h: History)
    requires h.inputs == []
    ensures Begun(h.request, h.d) == Meaning(h)
  {
    hide RE.SendWindow;
  }

  // ---- What follows for every slot -----------------------------------

  /** A download with options has sent nothing before the first ACK with number 0. */
  lemma NothingBeforeAckZero(h: History)
    requires Held(h) && h.request.ReadRequest? && h.request.c.Some? && h.request.options
    ensures Current(h).Reading? <==> exists k | 0 <= k < |h.inputs| ::
              AckZero(h.inputs[k]) && forall i | 0 <= i < k :: !(h.inputs[i].Heard? && h.inputs[i].msg.Error?)
  {
    hide Current, Held, RE.Exec, ReadRun;
    CurrentIsMeaning(h);
    var k := FirstDecisive(h.inputs);
    if exists m | 0 <= m < |h.inputs| ::
         AckZero(h.inputs[m]) && forall i | 0 <= i < m :: !(h.inputs[i].Heard? && h.inputs[i].msg.Error?) {
      var m :| 0 <= m < |h.inputs| && AckZero(h.inputs[m])
               && forall i | 0 <= i < m :: !(h.inputs[i].Heard? && h.inputs[i].msg.Error?);
      assert Decisive(h.inputs[m]);
      assert k <= m;
    }
  }

  /** Every frame a slot has sent is the true DATA packet of its block, as long as no ACK beyond its window reached
      it while it had more to send. */
  lemma SlotFramesAreTrue(h: History, i: nat)
    requires Held(h) && Current(h).Reading? && i < |Current(h).s.wire|
    requires DownloadOf(h).Some? ==> Current(h).c.Valid() && RE.Understood(Current(h).c, DownloadOf(h).value)
    ensures var c, f := Current(h).c, Current(h).s.wire[i];
            && c.blksize > 0 && 1 <= f.block <= c.Total()
            && Decode(f.pkt) == Data(Wire(f.block), Slice(c.file, c.blksize, f.block))
  {
    hide Current, Held, RE.Exec, ReadRun, RE.Understood, Decode, Slice, BlockCount;
    CurrentIsMeaning(h);
    RE.EveryFrameIsTrue(Current(h).c, DownloadOf(h).value, i);
  }

  /** Every upload slot keeps the upload invariant, whatever reached it. */
  lemma SlotUploadsKeep(h: History)
    requires Held(h) && Current(h).Writing?
    ensures UE.Inv(Current(h).p, Current(h).u)
  {
    hide Current, Held, UE.Exec, WriteRun, UE.Inv;
    CurrentIsMeaning(h);
    var p := Current(h).p;
    UE.UploadInvariant(p, WriteRun(UE.Start(!h.request.options), h.inputs));
  }

  /** The same of the table itself, after any requests, packets and ticks. */
  lemma SlotsAreRuns(m: SessionManager, i: nat)
    requires m.Valid() && i < SESS_MAX && m.slots[i].Busy?
    ensures m.slots[i].transfer == Meaning(m.histories[i])
    ensures m.slots[i].transfer.Writing? ==> UE.Inv(m.slots[i].transfer.p, m.slots[i].transfer.u)
  {
    hide Current, Held, Meaning, UE.Inv;
    var h := m.histories[i];
    CurrentIsMeaning(h);
    if Current(h).Writing? {
      SlotUploadsKeep(h);
    }
  }

  // ---- Timers and counters -------------------------------------------

  function Retries(t: Transfer): nat {
    match t
    case Negotiating(_, retrans) => retrans
    case Reading(_, s) => s.retrans
    case Writing(_, u) => u.retrans
    case Over => 0
  }

  /** Ended, and waiting for the next tick to free its slot. */
  predicate Ended(t: Transfer) {
    t.Over? || (t.Reading? && t.s.state == RE.Done) || (t.Writing? && t.u.state == UE.Finished)
  }

  /** A tick frees a slot exactly when its session has ended, or its timer has run out after five retries; a session
      whose timer has run out before uses up one retry, and any other is left alone. */
  lemma TickExact(s: Slot, expired: bool, d: Disk)
    requires s.Busy? && !Gone(s.transfer)
    ensures Ticked(s, expired, d).Free? <==> Ended(s.transfer) || (expired && Retries(s.transfer) >= 5)
    ensures Ticked(s, expired, d).Busy? ==>
              var s' := Ticked(s, expired, d);
              s'.key == s.key && if expired then Retries(s'.transfer) == Retries(s.transfer) + 1 else s' == s
  {
    hide RE.SendWindow;
    if s.transfer.Reading? && s.transfer.s.state == RE.SendRrq && expired {
      SendKeepsRetries(s.transfer.c, s.transfer.s.(retrans := s.transfer.s.retrans + 1, preValid := false), d);
    }
  }

  lemma SendKeepsRetries(c: RE.Config, s: RE.Session, d: Disk)
    requires s.state == RE.SendRrq
    ensures var s' := RE.SendWindow(c, s, d.readable, d.preReadable); s'.retrans == s.retrans && s'.state != RE.Free
  {
    hide RE.FillWindow;
  }

  /** A packet fails a session, in the sense that is counted, exactly when it is the due block of an upload within its
      cap and the disk does not take it or the commit of a short one fails. */
  lemma FailsExactly(t: Transfer, msg: Msg, d: Disk)
    requires Consistent(t) && !Gone(t)
    requires t.Writing? ==> t.u.nextBlock + 65536 < RE.TWO32
    ensures var taken := t.Writing? && t.u.state == UE.Receiving && msg.Data? && msg.block == t.u.nextBlock % 65536
                         && (t.p.maxSize > 0 ==> t.u.bytesDone + |msg.payload| <= t.p.maxSize);
            Failed(Deliver(t, msg, d)) && !Failed(t) <==>
            taken && (!d.writeOk || (|msg.payload| < t.p.blksize && !d.commitOk))
  {
    hide UE.MapBlock, RE.OnAck, RE.SendWindow;
    if t.Writing? && msg.Data? {
      UE.NextIsRecognised(t.u.nextBlock);
      UE.OnlyNextIsNext(t.u.nextBlock, msg.block);
    }
  }

  /** And it completes one exactly when it is such a block, short, taken and committed, or an ACK that a download with
      everything sent takes for the last block or beyond. */
  lemma CompletesExactly(t: Transfer, msg: Msg, d: Disk)
    requires Consistent(t) && !Gone(t)
    requires t.Writing? ==> t.u.nextBlock + 65536 < RE.TWO32
    ensures var taken := t.Writing? && t.u.state == UE.Receiving && msg.Data? && msg.block == t.u.nextBlock % 65536
                         && (t.p.maxSize > 0 ==> t.u.bytesDone + |msg.payload| <= t.p.maxSize);
            var acked := t.Reading? && t.s.state == RE.SendRrq && msg.Ack? && t.s.eof
                         && RE.MapAck(t.s.windowLast, msg.block) >= t.s.windowLast
                         && RE.MapAck(t.s.windowLast, msg.block) >= t.s.nextBlock;
            Completed(Deliver(t, msg, d)) && !Completed(t) <==>
            (taken && d.writeOk && |msg.payload| < t.p.blksize && d.commitOk) || acked
  {
    hide UE.MapBlock, RE.OnAck, RE.SendWindow, RE.MapAck;
    if t.Writing? && msg.Data? {
      UE.NextIsRecognised(t.u.nextBlock);
      UE.OnlyNextIsNext(t.u.nextBlock, msg.block);
    } else if t.Reading? && t.s.state == RE.SendRrq && msg.Ack? {
      AckCompletes(t.c, t.s, msg.block, d);
    } else if t.Negotiating? {
      BeginIncomplete(t.c, t.retrans, d);
    }
  }

  lemma BeginIncomplete(c: RE.Config, retrans: nat, d: Disk)
    ensures !RE.Begin(c, retrans, d.readable, d.preReadable).completed
  {
    hide RE.SendWindow;
    RE.SendFrame(c, RE.Unsent(retrans), d.readable, d.preReadable);
  }

  lemma AckCompletes(c: RE.Config, s: RE.Session, ack: word, d: Disk)
    requires s.state == RE.SendRrq
    ensures var cand := RE.MapAck(s.windowLast, ack);
            RE.OnAck(c, s, ack, d.readable, d.preReadable).completed <==>
            s.completed || (s.eof && cand >= s.windowLast && cand >= s.nextBlock)
  {
    hide RE.MapAck, RE.SendWindow, RE.FlushPrebuilt, RE.Credit;
    var cand := RE.MapAck(s.windowLast, ack);
    RE.CreditFrame(c, s, cand);
    var s' := RE.Credit(c, s, cand);
    RE.SendFrame(c, s'.(preValid := false), d.readable, d.preReadable);
    RE.FlushFrame(c, s', d.preReadable);
  }
}
