/** The C engine's upload session as it updates its own fields, proved against `UploadEngine`. */
module UploadSessions {
  import opened Blocks
  import opened Protocol
  import opened ReadEngine
  import opened UploadEngine

  class UploadSession {
    const p: Policy
    var state: UploadState
    var result: Result
    var nextBlock: nat
    var bytesDone: nat
    var retrans: nat
    var file: seq<byte>
    var acks: seq<word>
    /** What was written, packet by packet. */
    ghost var accepted: seq<Accepted>

    ghost function View(): Upload
      reads this
    {
      Upload(state, result, nextBlock, bytesDone, retrans, file, accepted, acks)
    }

    ghost predicate Valid()
      reads this
    {
      UploadEngine.Inv(p, View())
    }

    constructor (p: Policy, optionsNegotiated: bool)
      ensures Valid() && this.p == p && View() == Opened(!optionsNegotiated)
    {
      this.p := p;
      state, result, nextBlock, bytesDone, retrans := UploadState.Receiving, Pending, 1, 0, 0;
      file, accepted := [], [];
      acks := if optionsNegotiated then [] else [0];
    }

    /** The 32-bit block a packet is taken for. */
    method TakeFor(block: word) returns (cand: nat)
      requires nextBlock < TWO32
      ensures cand == MapBlock(nextBlock, block)
      ensures Wire(cand) == block && (cand == nextBlock ==> block == Wire(nextBlock))
    {
      cand := nextBlock / 65536 * 65536 + block;
      if U32(cand + 65536) <= nextBlock {
        cand := U32(cand + 65536);
      } else if cand > U32(nextBlock + 32768) {
        cand := U32(cand - 65536);
      }
    }

    method HandleData(block: word, payload: seq<byte>, writeOk: bool, commitOk: bool)
      requires Valid() && state == UploadState.Receiving
      modifies this
      ensures Valid()
      ensures View() == OnData(p, old(View()), block, payload, writeOk, commitOk)
      // the file grows by this payload under the number that was due, or stays as it is
      ensures file == old(file) || (file == old(file) + payload && block == Wire(old(nextBlock)))
      ensures bytesDone == |file| && (p.maxSize > 0 ==> |file| <= p.maxSize)
      // only a short block that was written commits, and only the ACK of this packet goes out
      ensures result == Committed ==> |payload| < p.blksize && file == old(file) + payload && commitOk
      ensures acks == old(acks) || acks == old(acks) + [block]
    {
      hide U32, MapBlock, UploadEngine.Inv;
      DataEffect(p, View(), block, payload, writeOk, commitOk);
      assert nextBlock < TWO32 by { NextOfInv(p, View()); }
      var cand := TakeFor(block);
      if cand < nextBlock {
        acks := acks + [block];
        return;
      }
      if cand > nextBlock {
        return;
      }
      if p.maxSize > 0 && bytesDone + |payload| > p.maxSize {
        state, result := Finished, OverSize;
        return;
      }
      if !writeOk {
        state, result := Finished, WriteFailed;
        return;
      }
      file, accepted := file + payload, accepted + [Accepted(block, payload)];
      bytesDone, nextBlock, retrans := bytesDone + |payload|, U32(cand + 1), 0;
      acks := acks + [block];
      if |payload| < p.blksize {
        state, result := Finished, if commitOk then Committed else CommitFailed;
      }
    }

    method HandleTimer()
      requires Valid() && state == UploadState.Receiving
      modifies this
      ensures Valid()
      ensures View() == OnTimer(old(View()))
      ensures file == old(file) && result != Committed
      // what is repeated is the ACK of the last block written
      ensures state == UploadState.Receiving && |accepted| + 1 < TWO32 ==> acks == old(acks) + [Wire(|accepted|)]
    {
      TimerKeeps(p, View());
      retrans := retrans + 1;
      if retrans > MAX_RETRANS {
        state, result := Released, TimedOut;
        return;
      }
      acks := acks + [if nextBlock > 1 then Wire(nextBlock - 1) else 0];
    }
  }
}
