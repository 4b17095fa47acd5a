/** The C engine's download session as it updates its own fields, proved against `ReadEngine`. */
module ReadSessions {
  import opened Blocks
  import opened Protocol
  import opened ReadEngine

  class ReadSession {
    const c: Config
    var state: SessionState
    var completed: bool
    var nextBlock: nat
    var windowLast: nat
    var eof: bool
    var windowFirstOffset: nat
    var bytesDone: nat
    var retrans: nat
    var prebuilt: seq<Frame>
    var preFirst: nat
    var preLast: nat
    var preFirstOffset: nat
    var preEof: bool
    var preValid: bool
    var wire: seq<Frame>

    function View(): Session
      reads this
    {
      Session(state, completed, nextBlock, windowLast, eof, windowFirstOffset, bytesDone, retrans,
              prebuilt, preFirst, preLast, preFirstOffset, preEof, preValid, wire)
    }

    /** What every handler keeps, as long as ACKs are of blocks up to the end of the window. */
    ghost predicate Valid()
      reads this
    {
      c.Valid() && Inv(c, View())
    }

    constructor (c: Config, retrans: nat)
      ensures this.c == c && View() == Unsent(retrans)
      ensures c.Valid() ==> Valid()
    {
      this.c := c;
      state, completed, nextBlock, windowLast, eof := SendRrq, false, 1, 0, false;
      windowFirstOffset, bytesDone, this.retrans := 0, 0, retrans;
      prebuilt, preFirst, preLast, preFirstOffset, preEof, preValid := [], 0, 0, 0, false, false;
      wire := [];
    }

    method FillQueue(queue: seq<Frame>, first: nat, firstOffset: nat, readable: nat) returns (r: Filled)
      ensures r == FillWindow(c, queue, first, firstOffset, readable)
    {
      hide ReadAt, QueueBytes, PackData, U32;
      var q, sent, eof := queue, 0, false;
      var last: nat := if first > 0 then first - 1 else 0;
      var block: nat, offset: nat, unread: nat := first, firstOffset, readable;
      while sent < c.windowsize && !eof
        invariant sent <= c.windowsize
        invariant !eof ==> FillWindow(c, queue, first, firstOffset, readable)
                           == Fill(c, q, last, block, offset, c.windowsize - sent, unread)
        invariant eof ==> FillWindow(c, queue, first, firstOffset, readable) == Filled(q, last, true, true)
      {
        if unread == 0 {
          return Filled(q, last, false, false);
        }
        unread := unread - 1;
        var chunk := ReadAt(c, offset);
        if |chunk| > MAX_CHUNK {
          return Filled(q, last, false, false);
        }
        var f := Frame(block, PackData(Wire(block), chunk));
        if QueueBytes(c, q) + Cost(c, f) > QUEUE_CAP {
          return Filled(q, last, false, true);
        }
        q, last, offset, sent := q + [f], block, offset + |chunk|, sent + 1;
        block := U32(block + 1);
        eof := |chunk| < c.blksize;
      }
      r := Filled(q, last, eof, true);
    }

    method PrebuildNextWindow(readable: nat)
      modifies this
      ensures View() == PrebuildNext(c, old(View()), readable)
    {
      hide FillWindow, U32;
      if eof || !c.hasPrebuilt {
        return;
      }
      var first := U32(windowLast + 1);
      var offset := windowFirstOffset + U32(windowLast + 1 - nextBlock) * c.blksize;
      var r := FillQueue(prebuilt, first, offset, readable);
      prebuilt := r.queue;
      if !r.ok {
        preValid := false;
        return;
      }
      preFirst, preLast, preFirstOffset, preEof, preValid := first, r.last, offset, r.eof, true;
    }

    method TransmitWindow(readable: nat, preReadable: nat)
      modifies this
      ensures View() == SendWindow(c, old(View()), readable, preReadable)
    {
      hide FillWindow, U32;
      preValid := false;
      var r := FillQueue([], nextBlock, windowFirstOffset, readable);
      wire := wire + r.queue;
      if !r.ok {
        state := Done;
        return;
      }
      windowLast, eof := r.last, r.eof;
      PrebuildNextWindow(preReadable);
    }

    /** The first half of the ACK handler: moves the position, or ends the session. */
    method CreditAck(cand: nat)
      requires state == SendRrq
      modifies this
      ensures View() == Credit(c, old(View()), cand)
    {
      hide U32;
      var advanced := U32(cand + 1 - nextBlock) * c.blksize;
      bytesDone := windowFirstOffset + advanced;
      if bytesDone > |c.file| {
        bytesDone := |c.file|;
      }
      if eof && cand >= windowLast {
        completed, state := true, Done;
        return;
      }
      nextBlock, windowFirstOffset, retrans := U32(cand + 1), bytesDone, 0;
    }

    /** Sends the prebuilt window and prebuilds the one after it. */
    method FlushAndPrebuild(preReadable: nat)
      modifies this
      ensures View() == FlushPrebuilt(c, old(View()), preReadable)
    {
      hide PrebuildNext;
      windowLast, eof := preLast, preEof;
      wire, prebuilt, preValid := wire + prebuilt, [], false;
      PrebuildNextWindow(preReadable);
    }

    method HandleAck(ack: word, readable: nat, preReadable: nat)
      requires state == SendRrq
      modifies this
      ensures View() == OnAck(c, old(View()), ack, readable, preReadable)
      ensures old(Valid()) && ack <= old(windowLast) ==>
                Valid() && (completed <==> MapAck(old(windowLast), ack) == c.Total())
    {
      hide FillWindow, PrebuildNext, SendWindow, FlushPrebuilt, Inv;
      if Valid() && ack <= windowLast {
        OnAckKeeps(c, View(), ack, readable, preReadable);
      }
      var cand := MapAck(windowLast, ack);
      if cand < nextBlock {
        return;
      }
      CreditAck(cand);
      if state == Done {
        return;
      }
      if preValid && preFirst == nextBlock && cand == windowLast {
        FlushAndPrebuild(preReadable);
        return;
      }
      preValid := false;
      TransmitWindow(readable, preReadable);
    }

    method HandleTimeout(readable: nat, preReadable: nat)
      requires state == SendRrq
      modifies this
      ensures View() == OnTimeout(c, old(View()), readable, preReadable)
      ensures old(Valid()) ==> Valid() && !completed
    {
      hide FillWindow, PrebuildNext, SendWindow, Inv;
      if Valid() {
        OnTimeoutKeeps(c, View(), readable, preReadable);
      }
      retrans := retrans + 1;
      if retrans > MAX_RETRANS {
        state, prebuilt, preValid := Free, [], false;
        return;
      }
      preValid := false;
      TransmitWindow(readable, preReadable);
    }
  }
}
