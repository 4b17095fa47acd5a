/** Uploads in the C engine: `wrq_on_data` and the re-ACK timer (c_core/session.c). */
module UploadEngine {
  import opened Blocks
  import opened Protocol
  import opened ReadEngine

  /** `maxSize` 0 means no cap. */
  datatype Policy = Policy(blksize: nat, maxSize: nat)

  datatype UploadState = Receiving | Finished | Released

  /** Why a finished upload finished. */
  datatype Result = Pending | Committed | OverSize | WriteFailed | CommitFailed | Aborted | TimedOut

  /** A DATA packet that was written. */
  datatype Accepted = Accepted(block: word, payload: seq<byte>)

  /** `accepted` and `acks` record what was written and which ACKs went out. */
  datatype Upload = Upload(
    state: UploadState, result: Result, nextBlock: nat, bytesDone: nat, retrans: nat,
    file: seq<byte>, accepted: seq<Accepted>, acks: seq<word>)

  /** The plain ACK 0 goes out unless options were negotiated (then an OACK does). */
  function Opened(ackZero: bool): Upload {
    Upload(Receiving, Pending, 1, 0, 0, [], [], if ackZero then [0] else [])
  }

  /** The 32-bit block a DATA packet is taken for. */
  function MapBlock(nextBlock: nat, block: word): nat {
    var cand := nextBlock / 65536 * 65536 + block;
    if U32(cand + 65536) <= nextBlock then U32(cand + 65536)
    else if cand > U32(nextBlock + 32768) then U32(cand - 65536)
    else cand
  }

  function WriteBlock(p: Policy, u: Upload, block: word, payload: seq<byte>, commitOk: bool): Upload {
    var u' := u.(bytesDone := u.bytesDone + |payload|, file := u.file + payload,
                 nextBlock := U32(u.nextBlock + 1), retrans := 0,
                 accepted := u.accepted + [Accepted(block, payload)], acks := u.acks + [block]);
    if |payload| >= p.blksize then u'
    else u'.(state := Finished, result := if commitOk then Committed else CommitFailed)
  }

  function OnData(p: Policy, u: Upload, block: word, payload: seq<byte>, writeOk: bool, commitOk: bool): Upload {
    var cand := MapBlock(u.nextBlock, block);
    if cand < u.nextBlock then u.(acks := u.acks + [block])
    else if cand > u.nextBlock then u
    else if p.maxSize > 0 && u.bytesDone + |payload| > p.maxSize then u.(state := Finished, result := OverSize)
    else if !writeOk then u.(state := Finished, result := WriteFailed)
    else WriteBlock(p, u, block, payload, commitOk)
  }

  function OnTimer(u: Upload): Upload {
    if u.retrans + 1 > MAX_RETRANS then u.(retrans := u.retrans + 1, state := Released, result := TimedOut)
    else u.(retrans := u.retrans + 1, acks := u.acks + [if u.nextBlock > 1 then Wire(u.nextBlock - 1) else 0])
  }

  /** `writeOk` and `commitOk` are the outcomes of the disk write and of the final rename or upload. */
  datatype Event = Block(block: word, payload: seq<byte>, writeOk: bool, commitOk: bool) | Timer | ClientError

  function Step(p: Policy, u: Upload, ev: Event): Upload {
    match ev
    case Block(block, payload, writeOk, commitOk) =>
      if u.state == Receiving then OnData(p, u, block, payload, writeOk, commitOk) else u
    case Timer => if u.state == Receiving then OnTimer(u) else u.(state := Released)
    case ClientError => if u.state == Receiving then u.(state := Finished, result := Aborted) else u
  }

  datatype Run = Start(ackZero: bool) | Then(before: Run, ev: Event)

  function Exec(p: Policy, run: Run): Upload {
    match run
    case Start(ackZero) => Opened(ackZero)
    case Then(before, ev) => Step(p, Exec(p, before), ev)
  }

  // ---- Reading block numbers back ------------------------------------

  /** Whatever the 32-bit wrap does, only the number of the next block is taken for it. */
  lemma OnlyNextIsNext(nextBlock: nat, block: word)
    requires nextBlock < TWO32
    ensures Wire(MapBlock(nextBlock, block)) == block
    ensures MapBlock(nextBlock, block) == nextBlock ==> block == Wire(nextBlock)
  {
  }

  /** The next block itself is recognised exactly while it is more than 65536 below 2^32: beyond, adding
      a cycle wraps. */
  lemma NextIsRecognised(nextBlock: nat)
    requires nextBlock < TWO32
    ensures MapBlock(nextBlock, Wire(nextBlock)) == nextBlock <==> nextBlock + 65536 < TWO32
  {
  }

  /** The exact fate of a block ahead of the next one, however far. It is written in the next
      block's place when it has its number. It is acknowledged as a duplicate, though never written,
      when its number is below the next one, or more than half the number space above it once the
      upload has passed 65536 blocks. Otherwise it is dropped in silence. */
  lemma AheadExact(nextBlock: nat, ahead: nat)
    requires nextBlock < ahead && nextBlock + 65536 < TWO32
    ensures MapBlock(nextBlock, Wire(ahead)) == nextBlock <==> Wire(ahead) == Wire(nextBlock)
    ensures MapBlock(nextBlock, Wire(ahead)) < nextBlock <==>
            Wire(ahead) < Wire(nextBlock) || (nextBlock >= 65536 && Wire(ahead) > Wire(nextBlock) + 32768)
  {
  }

  /** Ahead by no more than half the number space, a block is dropped in silence exactly when no
      multiple of 65536 lies in between; otherwise it is acknowledged although never written. */
  lemma AheadAcknowledgedIff(p: Policy, u: Upload, ahead: nat, payload: seq<byte>, writeOk: bool, commitOk: bool)
    requires u.nextBlock < ahead <= u.nextBlock + 32768 && u.nextBlock + 65536 < TWO32
    ensures var u' := OnData(p, u, Wire(ahead), payload, writeOk, commitOk);
            if ahead / 65536 == u.nextBlock / 65536 then u' == u
            else u' == u.(acks := u.acks + [Wire(ahead)])
  {
    AheadExact(u.nextBlock, ahead);
  }

  // ---- Every run -----------------------------------------------------

  function Flatten(accepted: seq<Accepted>): seq<byte> {
    if accepted == [] then [] else Flatten(accepted[..|accepted| - 1]) + accepted[|accepted| - 1].payload
  }

  /** An ACK of 0 or of a block already written. */
  predicate AcksWritten(u: Upload) {
    forall i | 0 <= i < |u.acks| :: u.acks[i] <= |u.accepted|
  }

  /** What is on disk and how much. */
  predicate Contents(p: Policy, u: Upload) {
    && u.file == Flatten(u.accepted)
    && u.bytesDone == |u.file|
    && (p.maxSize > 0 ==> u.bytesDone <= p.maxSize)
  }

  /** Which numbers were accepted and which one is next. */
  predicate Numbering(u: Upload) {
    && u.nextBlock == U32(|u.accepted| + 1)
    && (forall i | 0 <= i < |u.accepted| :: u.accepted[i].block == Wire(i + 1))
    && (|u.accepted| <= 65535 ==> AcksWritten(u))
  }

  /** A short block is the last one, and only a short block commits. */
  predicate Ending(p: Policy, u: Upload) {
    && (forall i | 0 <= i < |u.accepted| - 1 :: |u.accepted[i].payload| >= p.blksize)
    && (u.state == Receiving ==> u.result == Pending)
    && (u.state == Receiving && u.accepted != [] ==> |u.accepted[|u.accepted| - 1].payload| >= p.blksize)
    && (u.result == Committed ==> u.accepted != [] && |u.accepted[|u.accepted| - 1].payload| < p.blksize)
  }

  predicate Inv(p: Policy, u: Upload) {
    Contents(p, u) && Numbering(u) && Ending(p, u)
  }

  lemma WireOfNext(n: nat)
    ensures Wire(U32(n)) == Wire(n)
  {
  }

  lemma WriteKeeps(p: Policy, u: Upload, payload: seq<byte>, commitOk: bool)
    requires Inv(p, u) && u.state == Receiving && (p.maxSize > 0 ==> u.bytesDone + |payload| <= p.maxSize)
    ensures Inv(p, WriteBlock(p, u, Wire(u.nextBlock), payload, commitOk))
  {
    hide U32, Wire;
    var u' := WriteBlock(p, u, Wire(u.nextBlock), payload, commitOk);
    assert u'.accepted[..|u'.accepted| - 1] == u.accepted;
    assert Contents(p, u');
    assert Ending(p, u');
    assert Numbering(u') by {
      hide Flatten, Contents, Ending;
      WriteKeepsNumbering(p, u, payload, commitOk);
    }
  }

  lemma WriteKeepsNumbering(p: Policy, u: Upload, payload: seq<byte>, commitOk: bool)
    requires Numbering(u)
    ensures Numbering(WriteBlock(p, u, Wire(u.nextBlock), payload, commitOk))
  {
    hide U32, Wire;
    WireOfNext(|u.accepted| + 1);
    NextOfNext(|u.accepted| + 1);
    WireSmall(|u.accepted| + 1);
  }

  lemma NextOfNext(n: nat)
    ensures U32(U32(n) + 1) == U32(n + 1)
  {
  }

  /** A duplicate of at most 65535 blocks' upload names a written block or 0. */
  lemma DuplicateWasWritten(accepted: nat, block: word)
    requires accepted <= 65535
    ensures MapBlock(accepted + 1, block) < accepted + 1 ==> block <= accepted
  {
  }

  lemma DataKeeps(p: Policy, u: Upload, block: word, payload: seq<byte>, writeOk: bool, commitOk: bool)
    requires Inv(p, u) && u.state == Receiving
    ensures Inv(p, OnData(p, u, block, payload, writeOk, commitOk))
  {
    hide MapBlock, WriteBlock, U32, Flatten;
    OnlyNextIsNext(u.nextBlock, block);
    if |u.accepted| <= 65535 {
      SmallU32(|u.accepted| + 1);
      DuplicateWasWritten(|u.accepted|, block);
    }
    if MapBlock(u.nextBlock, block) == u.nextBlock && (p.maxSize > 0 ==> u.bytesDone + |payload| <= p.maxSize) {
      WriteKeeps(p, u, payload, commitOk);
    }
  }

  /** What one DATA packet can do: grow the file by its payload under the number that is due, and
      commit only then and only when short. */
  lemma DataEffect(p: Policy, u: Upload, block: word, payload: seq<byte>, writeOk: bool, commitOk: bool)
    requires Inv(p, u) && u.state == Receiving
    ensures var u' := OnData(p, u, block, payload, writeOk, commitOk);
            && Inv(p, u')
            && (u'.file == u.file || (u'.file == u.file + payload && block == Wire(u.nextBlock)))
            && u'.bytesDone == |u'.file| && (p.maxSize > 0 ==> |u'.file| <= p.maxSize)
            && (u'.result == Committed ==> |payload| < p.blksize && u'.file == u.file + payload && commitOk)
            && (u'.acks == u.acks || u'.acks == u.acks + [block])
  {
    hide MapBlock, U32, Flatten;
    DataKeeps(p, u, block, payload, writeOk, commitOk);
    OnlyNextIsNext(u.nextBlock, block);
  }

  lemma SmallU32(n: nat)
    requires n < TWO32
    ensures U32(n) == n
  {
  }

  lemma TimerKeeps(p: Policy, u: Upload)
    requires Inv(p, u) && u.state == Receiving
    ensures Inv(p, OnTimer(u))
  {
    if |u.accepted| <= 65535 {
      SmallU32(|u.accepted| + 1);
    }
  }

  lemma StepKeeps(p: Policy, u: Upload, ev: Event)
    requires Inv(p, u)
    ensures Inv(p, Step(p, u, ev))
  {
    hide OnData, OnTimer, Flatten, U32, Wire;
    if u.state == Receiving {
      match ev
      case Block(block, payload, writeOk, commitOk) => DataKeeps(p, u, block, payload, writeOk, commitOk);
      case Timer => TimerKeeps(p, u);
      case ClientError =>
    }
  }

  /** In every run: the file is the concatenation of the accepted payloads, the i-th of which came
      under block number i modulo 65536; the byte count is the file's length and respects the cap;
      an upload commits only on a short block; and while at most 65535 blocks were written every ACK
      sent so far names a written block or 0. */
  lemma {:induction false} UploadInvariant(p: Policy, run: Run)
    ensures Inv(p, Exec(p, run))
  {
    match run
    case Start(ackZero) =>
    case Then(before, ev) =>
      hide Step, Inv;
      UploadInvariant(p, before);
      StepKeeps(p, Exec(p, before), ev);
  }

  // ---- Against a client that sends a file ----------------------------

  /** Every DATA packet is some block of the data, in any order and any number of times. */
  ghost predicate FromFile(p: Policy, data: seq<byte>, run: Run)
    requires p.blksize > 0
  {
    run.Then? ==>
      && FromFile(p, data, run.before)
      && (run.ev.Block? ==> exists b: nat :: IsBlock(p, data, run.ev, b))
  }

  predicate IsBlock(p: Policy, data: seq<byte>, ev: Event, b: nat)
    requires p.blksize > 0 && ev.Block?
  {
    1 <= b <= BlockCount(|data|, p.blksize) && ev.block == Wire(b) && ev.payload == Slice(data, p.blksize, b)
  }

  /** Less than one cycle of block numbers away from the block that is due, on either side. */
  predicate Near(due: nat, b: nat) {
    due < b + WRAP && b < due + WRAP
  }

  /** The same client over a channel that delivers nothing to a receiving upload a full cycle early
      or late. */
  ghost predicate NearFromFile(p: Policy, data: seq<byte>, run: Run)
    requires p.blksize > 0
  {
    run.Then? ==>
      && NearFromFile(p, data, run.before)
      && var u := Exec(p, run.before);
         run.ev.Block? && u.state == Receiving ==>
           exists b: nat :: IsBlock(p, data, run.ev, b) && Near(|u.accepted| + 1, b)
  }

  /** What is on disk is a whole number of leading blocks, and all of the data once committed. */
  predicate HoldsPrefix(p: Policy, data: seq<byte>, u: Upload)
    requires p.blksize > 0
  {
    && |u.accepted| <= BlockCount(|data|, p.blksize)
    && u.file == Prefix(data, p.blksize, |u.accepted|)
    && (u.state == Receiving ==> |u.accepted| < BlockCount(|data|, p.blksize))
    && (u.result == Committed ==> u.file == data)
  }

  /** For files of any length, the file on disk is always a leading part of the data, and a
      committed upload is the whole of it. */
  lemma {:induction false} UploadIsPrefix(p: Policy, data: seq<byte>, run: Run)
    requires p.blksize > 0 && NearFromFile(p, data, run)
    ensures HoldsPrefix(p, data, Exec(p, run))
  {
    hide BlockCount, Slice, Prefix, MapBlock, U32, Flatten;
    if run.Then? {
      UploadIsPrefix(p, data, run.before);
      UploadInvariant(p, run.before);
      var u := Exec(p, run.before);
      if u.state == Receiving && run.ev.Block? {
        var b: nat :| IsBlock(p, data, run.ev, b) && Near(|u.accepted| + 1, b);
        PrefixUpload(p, data, u, run.ev, b);
      }
    } else {
      PrefixZero(data, p.blksize);
    }
  }

  /** Up to 65535 blocks nothing can be a full cycle away, so no assumption on delays is needed. */
  lemma {:induction false} SmallUploadIsPrefix(p: Policy, data: seq<byte>, run: Run)
    requires p.blksize > 0 && BlockCount(|data|, p.blksize) <= 65535 && FromFile(p, data, run)
    ensures NearFromFile(p, data, run)
    ensures HoldsPrefix(p, data, Exec(p, run))
  {
    hide BlockCount, Slice, Prefix, Step;
    if run.Then? {
      SmallUploadIsPrefix(p, data, run.before);
      var u := Exec(p, run.before);
      if u.state == Receiving && run.ev.Block? {
        var b: nat :| IsBlock(p, data, run.ev, b);
        assert Near(|u.accepted| + 1, b);
      }
    }
    UploadIsPrefix(p, data, run);
  }

  lemma PrefixZero(data: seq<byte>, blksize: nat)
    requires blksize > 0
    ensures Prefix(data, blksize, 0) == [] && BlockCount(|data|, blksize) > 0
  {
  }

  lemma PrefixUpload(p: Policy, data: seq<byte>, u: Upload, ev: Event, b: nat)
    requires p.blksize > 0 && Inv(p, u) && u.state == Receiving && HoldsPrefix(p, data, u)
    requires ev.Block? && IsBlock(p, data, ev, b) && Near(|u.accepted| + 1, b)
    ensures HoldsPrefix(p, data, Step(p, u, ev))
  {
    hide BlockCount, Slice, Prefix, MapBlock, Flatten, Inv, U32;
    var due := |u.accepted| + 1;
    assert u.nextBlock == U32(due) && u.result == Pending by { NextOfInv(p, u); }
    OnlyNextIsNext(u.nextBlock, ev.block);
    if MapBlock(u.nextBlock, ev.block) == u.nextBlock {
      WireOfNext(due);
      if b != due {
        Congruent(b, due);
      }
      PrefixStep(data, p.blksize, due);
      PrefixWhole(data, p.blksize, due);
      OnlyLastIsShort(data, p.blksize, due);
    }
  }

  lemma NextOfInv(p: Policy, u: Upload)
    requires Inv(p, u) && u.state == Receiving
    ensures u.nextBlock == U32(|u.accepted| + 1) && u.result == Pending
  {
  }

  // ---- A full cycle away --------------------------------------------------

  /** The first n blocks, one after the other. */
  function InOrder(p: Policy, data: seq<byte>, n: nat): Run
    requires p.blksize > 0
  {
    if n == 0 then Start(true)
    else Run.Then(InOrder(p, data, n - 1), Block(Wire(n), Slice(data, p.blksize, n), true, true))
  }

  /** A file of this size is within the cap. */
  predicate WithinCap(p: Policy, size: nat) {
    p.maxSize == 0 || size <= p.maxSize
  }

  /** The blocks of a file in order: accepted up to the first that passes the cap, and the upload is committed when
      the last one is accepted. */
  lemma {:induction false} InOrderEnds(p: Policy, data: seq<byte>, n: nat)
    requires p.blksize > 0 && n <= BlockCount(|data|, p.blksize) && n + 65536 < TWO32
    ensures NearFromFile(p, data, InOrder(p, data, n))
    ensures var u := Exec(p, InOrder(p, data, n));
            if !WithinCap(p, |Prefix(data, p.blksize, n)|) then u.state == Finished && u.result == OverSize
            else
              && u.file == Prefix(data, p.blksize, n) && u.bytesDone == |u.file| && |u.accepted| == n
              && (n < BlockCount(|data|, p.blksize) ==> u.state == Receiving && u.nextBlock == n + 1)
              && (n == BlockCount(|data|, p.blksize) ==> u.state == Finished && u.result == Committed)
  {
    hide BlockCount, Slice, Prefix, MapBlock;
    if n == 0 {
      PrefixZero(data, p.blksize);
    } else {
      InOrderEnds(p, data, n - 1);
      NextIsRecognised(n);
      OnlyLastIsShort(data, p.blksize, n);
      PrefixStep(data, p.blksize, n);
      var ev := Block(Wire(n), Slice(data, p.blksize, n), true, true);
      assert IsBlock(p, data, ev, n) && Near(n, n);
    }
  }

  lemma InOrderRuns(p: Policy, data: seq<byte>, n: nat)
    requires p.blksize > 0 && n < BlockCount(|data|, p.blksize) && n + 65536 < TWO32
    requires WithinCap(p, |Prefix(data, p.blksize, n)|)
    ensures NearFromFile(p, data, InOrder(p, data, n))
    ensures var u := Exec(p, InOrder(p, data, n));
            && u.state == Receiving && u.nextBlock == n + 1 && |u.accepted| == n
            && u.file == Prefix(data, p.blksize, n) && u.bytesDone == |u.file|
  {
    hide BlockCount, Prefix, Exec, NearFromFile;
    InOrderEnds(p, data, n);
  }

  /** An upload in order, with a disk that works, is committed as the whole file exactly when the file is within the
      cap, and is refused for its size otherwise. */
  lemma GoesThroughIff(p: Policy, data: seq<byte>)
    requires p.blksize > 0 && BlockCount(|data|, p.blksize) + 65536 < TWO32
    ensures var u := Exec(p, InOrder(p, data, BlockCount(|data|, p.blksize)));
            && (u.result == Committed && u.file == data <==> p.maxSize == 0 || |data| <= p.maxSize)
            && (u.result == OverSize <==> 0 < p.maxSize < |data|)
  {
    hide BlockCount, Prefix, Exec, NearFromFile;
    InOrderEnds(p, data, BlockCount(|data|, p.blksize));
    PrefixWhole(data, p.blksize, BlockCount(|data|, p.blksize));
  }

  /** Everything one DATA packet does to a receiving upload. Only the number that is due is looked at: that block is
      refused when it passes the cap, lost when the disk does not take it, and otherwise written and acknowledged,
      which ends the upload exactly when it is short. */
  lemma DataExact(p: Policy, u: Upload, block: word, payload: seq<byte>, writeOk: bool, commitOk: bool)
    requires u.state == Receiving && u.nextBlock + 65536 < TWO32
    ensures var u' := OnData(p, u, block, payload, writeOk, commitOk);
            if block != u.nextBlock % 65536 then u' == u || u' == u.(acks := u.acks + [block])
            else if p.maxSize > 0 && u.bytesDone + |payload| > p.maxSize then
              u' == u.(state := Finished, result := OverSize)
            else if !writeOk then u' == u.(state := Finished, result := WriteFailed)
            else
              && u'.file == u.file + payload && u'.bytesDone == u.bytesDone + |payload| && u'.acks == u.acks + [block]
              && u'.nextBlock == u.nextBlock + 1 && u'.retrans == 0
              && u'.accepted == u.accepted + [Accepted(block, payload)]
              && u'.state == (if |payload| < p.blksize then Finished else Receiving)
              && u'.result ==
                 (if |payload| >= p.blksize then u.result else if commitOk then Committed else CommitFailed)
  {
    hide MapBlock;
    NextIsRecognised(u.nextBlock);
    OnlyNextIsNext(u.nextBlock, block);
  }

  /** k timers in a row. */
  function Timers(p: Policy, u: Upload, k: nat): Upload {
    if k == 0 then u else Step(p, Timers(p, u, k - 1), Timer)
  }

  function Repeat(a: word, k: nat): seq<word> {
    if k == 0 then [] else Repeat(a, k - 1) + [a]
  }

  /** A receiving upload endures five timers in a row since the last block it wrote, repeats the ACK of that block for
      each, and is let go on the sixth. */
  lemma {:induction false} UploadPatience(p: Policy, u: Upload, k: nat)
    requires u.state == Receiving && u.retrans + k <= 6
    ensures var u' := Timers(p, u, k);
            if u.retrans + k <= 5 then
              u' == u.(retrans := u.retrans + k,
                       acks := u.acks + Repeat(if u.nextBlock > 1 then (u.nextBlock - 1) % 65536 else 0, k))
            else k > 0 ==> u'.state == Released && u'.result == TimedOut && u'.file == u.file
  {
    if k == 0 {
      assert u.acks + [] == u.acks;
    } else {
      UploadPatience(p, u, k - 1);
      var a := if u.nextBlock > 1 then (u.nextBlock - 1) % 65536 else 0;
      assert u.acks + Repeat(a, k - 1) + [a] == u.acks + (Repeat(a, k - 1) + [a]);
    }
  }

  /** After n blocks in order, any block of the file leaves a leading part of the data on disk exactly
      when it does not have the number of the block that is due, or has its contents as well: a
      different block one or more full cycles away is written in place of the one that is due. */
  lemma CycleAwayIsWritten(p: Policy, data: seq<byte>, n: nat, b: nat)
    requires p.blksize > 0 && p.maxSize == 0 && n < BlockCount(|data|, p.blksize) && n + 65537 < TWO32
    requires 1 <= b <= BlockCount(|data|, p.blksize)
    ensures var run := Run.Then(InOrder(p, data, n), Block(Wire(b), Slice(data, p.blksize, b), true, true));
            var u := Exec(p, run);
            && FromFile(p, data, run)
            && (u.file == Prefix(data, p.blksize, |u.accepted|) <==>
                Wire(b) != Wire(n + 1) || Slice(data, p.blksize, b) == Slice(data, p.blksize, n + 1))
            && (Wire(b) == Wire(n + 1) ==> u.file == Prefix(data, p.blksize, n) + Slice(data, p.blksize, b))
  {
    hide BlockCount, Slice, Prefix, OnData, FromFile, Exec, NearFromFile, InOrder;
    InOrderRuns(p, data, n);
    InOrderFromFile(p, data, n);
    InOrderFromFileThen(p, data, n, b);
    BlockThen(p, InOrder(p, data, n), Wire(b), Slice(data, p.blksize, b));
    DataExact(p, Exec(p, InOrder(p, data, n)), Wire(b), Slice(data, p.blksize, b), true, true);
    if Wire(b) == Wire(n + 1) {
      PrefixStep(data, p.blksize, n + 1);
      var w := Prefix(data, p.blksize, n);
      assert (w + Slice(data, p.blksize, b))[|w|..] == Slice(data, p.blksize, b);
      assert (w + Slice(data, p.blksize, n + 1))[|w|..] == Slice(data, p.blksize, n + 1);
    }
  }

  lemma BlockThen(p: Policy, run: Run, block: word, payload: seq<byte>)
    requires Exec(p, run).state == Receiving
    ensures Exec(p, Run.Then(run, Block(block, payload, true, true))) ==
            OnData(p, Exec(p, run), block, payload, true, true)
  {
    hide OnData;
  }

  lemma {:induction false} InOrderFromFile(p: Policy, data: seq<byte>, n: nat)
    requires p.blksize > 0 && n < BlockCount(|data|, p.blksize)
    ensures FromFile(p, data, InOrder(p, data, n))
  {
    hide BlockCount, Slice;
    if n > 0 {
      InOrderFromFile(p, data, n - 1);
      assert IsBlock(p, data, Block(Wire(n), Slice(data, p.blksize, n), true, true), n);
    }
  }

  lemma InOrderFromFileThen(p: Policy, data: seq<byte>, n: nat, b: nat)
    requires p.blksize > 0 && FromFile(p, data, InOrder(p, data, n)) && 1 <= b <= BlockCount(|data|, p.blksize)
    ensures FromFile(p, data, Run.Then(InOrder(p, data, n), Block(Wire(b), Slice(data, p.blksize, b), true, true)))
  {
    hide BlockCount, Slice;
    assert IsBlock(p, data, Block(Wire(b), Slice(data, p.blksize, b), true, true), b);
  }
}
