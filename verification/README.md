# Verified model of a two-engine TFTP server

The server has two engines. The Python engine (`tftp/`, `files/`, `core/`) runs each transfer as a
coroutine; the C engine (`c_core/`) runs all transfers in one event loop over a fixed session table.
This project models the windowed transfer protocol of both engines and the parsers, buffers and
tables they rest on, and proves what they guarantee over every run.

## How it is organised

| files | part of the system |
|---|---|
| `Blocks.dfy`, `Protocol.dfy` | cutting a file into blocks; packets on the wire; undoing the 16-bit wrap |
| `Sender.dfy`, `Receiver.dfy`, `SenderRuns.dfy`, `ReceiverRuns.dfy` | the two transfer loops of the Python engine, and what they do on every list of events |
| `EndToEnd.dfy`, `EndToEndLimits.dfy`, `LoopRefinement.dfy` | both loops joined by a channel that loses, repeats and reorders |
| `ReadEngine.dfy`, `ReadRefinement.dfy`, `ReadSessions.dfy` | downloads in the C engine and the prebuilt window |
| `SendLimits.dfy` | the numbers behind a C download: packet size, queue size and patience |
| `DownloadWindow.dfy`, `WindowOne.dfy`, `Overrun.dfy` | what a C download has sent against its window, and when it sends beyond it |
| `Downloads.dfy` | C downloads joined to a receiving client |
| `UploadEngine.dfy`, `UploadSessions.dfy` | uploads in the C engine |
| `Uploads.dfy` | C uploads joined to a sending client |
| `SessionTable.dfy`, `SessionRuns.dfy` | the C session table, its dispatch and its counters; what its slots are after any requests, packets and ticks |
| `Json.dfy`, `JsonGrammar.dfy`, `JsonRoundTrip.dfy`, `JsonParser.dfy` | the C JSON reader |
| `Cache.dfy`, `CacheLoads.dfy`, `CacheRecency.dfy` | the file cache, concurrent loads, and the order of use |
| `LineFramer.dfy` | the C command stream over a fixed buffer |
| `Checksum.dfy`, `Frames.dfy`, `FrameFields.dfy` | Internet checksum, frame builders and frame parser, byte by byte |
| `Captures.dfy` | captured frames, whole or cut off, in front of the upload handler |
| `Decimal.dfy`, `OptionText.dfy`, `Options.dfy`, `COptions.dfy`, `Negotiation.dfy` | option negotiation in both engines, and what it grants |
| `Locks.dfy` | readers-writer locks on file names |
| `Wrappers.dfy` | the optional value |

A loop or an object that changes state is a method or a class, and each is proved equal to a function
of its input or of its old state. The theorems over whole runs are stated about those functions. A run
is a list of moves; what the environment decides (which packet arrives, whether a timer runs out,
whether a disk operation works, how many bytes a read returns) is part of the moves.

Two conventions hold throughout. A packet in flight carries its absolute block number beside its
bytes, and the transfer loops see only the bytes. Where the source raises, returns an error or marks a
session done, the model has a failed or finished state.

## What is proved

* **End to end.** With at most 65535 blocks, in every run and for every block and window size, the
  receiver's output is a whole number of leading blocks, both ends' completion implies the whole file,
  and the reorder buffer stays below the window. Beyond 65535 blocks the same holds as long as no
  packet arrives too late. Both bounds are exact for every window below 65536: with one block more, or one packet
  one block later, there is a run that breaks the guarantee. Every permitted file has a run that
  completes. The ends of the joint system are the outcomes of the two loops for the events they saw.
* **Patience.** Both loops raise exactly on malformed and ERROR packets, on the timeout after `max_retries`
  others since they last moved on, and in an upload past its limits. Every window and every ACK they send
  follows from the events, and the bound on effective events is attained. In the C engine a session endures
  five timeouts and is let go on the sixth.
* **C downloads.** In every run in which the read after an ACK works, the position invariant holds exactly
  as long as no ACK beyond the window reaches a session that has more to send. While it holds, every
  frame sent is the true slice of its block, retransmitted and leftover frames included. What completes a session is the ACK of the final block exactly when it is not older than 65535 blocks.
  Over every run the engine with the prebuilt queue and the engine without it are indistinguishable
  exactly as long as no flush finds frames from before its prebuild.
* **C downloads with a client.** Joined to a receiving client by a channel that loses, repeats and
  reorders, a completed download means that the client has the file. Up to 65535 blocks this needs no
  assumption on the channel as long as no flush finds leftover frames beyond its prebuild, which is also
  exactly when nothing is sent beyond the window. For every long enough file and working reads, all runs
  are safe exactly when the window is one block, there is no prebuild queue, or the blocks cannot be
  sent at all.
* **C uploads.** For files of any length the file on disk is a leading part of the data, and all of it
  once committed, as long as nothing is delivered a full cycle of numbers early or late; behind the
  frame parser this holds for captures that are whole. Up to 65535 blocks a sending client that has
  finished has had the whole file written.
* **C session table.** After any sequence of requests, packets and ticks every slot is the run of the
  download or upload engine over exactly the inputs that reached it. A download with options starts with
  the first ACK 0 and has sent nothing before. The results on frames sent and on uploads hold for slots.
* **Cache.** Over every history of looks, stores and invalidations, and in every interleaving of callers
  and loaders, the entries stand in the order of their last use and hold what was last stored, and what a
  store evicts was used less recently than everything it keeps.
* **Options.** What each engine grants to a request, and every key and text of the reply, for all inputs.
* **JSON.** The reader accepts exactly the texts of an explicit grammar, blanks included, and returns
  exactly their trees; reading inverts printing.
* **Framing, frames, locks.** See the rows below.

## Behaviour found in the code

These are facts of the code, with the lemmas that state them and, where one is known, the exact condition.

* An upload whose last block waited in the reorder buffer never leaves the receive loop by end of file
  (`CompletionExact`, `StrandedForever`). A permitted upload can end up like this exactly when the window
  is above 1 and there is more than one block (`StrandsIff`).
* An ACK 65536 blocks old completes a C download whose last window is out (`StaleAckEndsDownload`;
  `CompletedByFinalAck` has the exact condition).
* Timeouts and ACKs of part of a window pile up frames in the prebuild queue. Once a prebuild falls short
  of what is queued, the next full ACK sends blocks beyond the window. A client that acknowledges them
  is taken at its word, gets an empty block, and ends with part of the file. Nothing is sent beyond the
  window exactly when every flush is covered by its prebuild (`SentWithinIff`). From every first flush
  that is not, with data left beyond it, the download can end like that (`OverrunTruncates`). With
  working reads this happens to no download with a window of one block (`WindowOneCovered`) and can
  happen to every long enough one with a larger window (`LeftoversOverrun`, `LeftoversTruncate`,
  `StaysWithinIff`, `DownloadSafeIff`).
* A C download of more than 1998 bytes with blocks of more than 1998 bytes ends as a read error with nothing
  sent, although larger block sizes can be negotiated (`TooLargeFails`). With working reads and nothing
  lost, a download completes exactly when its blocks or its file are no larger (`LosslessCompletesIff`).
* The ACK of the block just sent is recognised exactly while that block is more than 65536 below 2^32
  (`CounterBound`).
* The C engine credits an ACK to a block it sent exactly when the ACK's value is at most the last block
  sent (`MapAckExact`); otherwise the subtraction wraps in 32 bits and the ACK is believed
  (`UntransmittedAckBelieved`).
* In a C upload a block up to 32768 ahead of the next one is acknowledged unwritten exactly when a
  multiple of 65536 lies in between (`AheadAcknowledgedIff`; `AheadExact` for any distance). The next block itself is recognised exactly
  while it is more than 65536 below 2^32 (`NextIsRecognised`).
* When block 65535 of an upload of 65536 to 131070 blocks is lost and the window is above one block, the
  ACKs of the blocks behind it carry the client to its end with block 65535 and all later ones unwritten
  (`LostBlockFinishesEarly`).
* The ACK of the last block of an upload goes out before the commit, so a client can finish although the
  commit fails (`FinishedBeforeCommit`).
* Any block with the number of the block that is due is written in its place, however many cycles away
  (`CycleAwayIsWritten`).
* A DATA frame that was cut off commits an upload short of the data (`CutFrameCommits`). The capture
  length of 2048 bytes (`c_core/pcap_io.c:20`) does this to every full block that does not fit it with
  its headers (`CaptureLimit`).
* As a function on inputs of any length, the frame parser can give a UDP payload a negative length
  (`BareUdpLength`, `L4InsideIff`), from 65570 bytes on. The capture length keeps such inputs away from
  it.
* A retransmission, an ACK that does not flush, and a prebuild whose reads fail half way leave frames in
  the prebuild queue (`TimeoutLeavesFrames`, `DiskAckLeavesFrames`, `FailedPrebuildLeavesFrames`), and
  the next flush sends them as well (`PrebuiltRefinesDisk`).
* The comment at `files/cache.py:37-38` says a new budget trims the cache; the code does not, and the
  model follows the code.
* A cache load that raised is answered like a missing file (`AnswersAreSource`).
* Under a policy other than `client`, a client that did not ask for a block size keeps 512 while the
  server uses another value (`AgreementIff`, `SilentClientDisagrees`).

## Model

| member | source | states |
|---|---|---|
| Blocks.OnlyLastIsShort | tftp/session.py:446-456 | of the blocks of a transfer the last, and only the last, is shorter than the block size |
| Blocks.Reassembly | tftp/session.py:446-456 | the blocks concatenate to the file; without the last one they do exactly when that one is the empty terminator |
| Protocol.FirstMatch | tftp/session.py:488-494 | the search finds the first number in the window with these low 16 bits, and fails only when there is none |
| Protocol.StaleIgnoredIff | tftp/session.py:628-639 | a block left behind by at most one cycle is ignored exactly when the window does not reach its next alias |
| Protocol.DecodeData | tftp/protocol.py:111-135 | unpacking a packed DATA packet gives its block number and payload |
| Protocol.DecodeAck | tftp/protocol.py:118-139 | unpacking a packed ACK gives its block number |
| Protocol.DecodeExact | tftp/protocol.py:111-139 | every packet is classified by its first two bytes and its length: DATA is 0 3, ACK is 0 4, ERROR is 0 5; number and payload are the bytes that follow |
| Sender.SendWindow | tftp/session.py:460-465 | the window loop sends exactly the DATA packets of its blocks, in order, behind what was sent before |
| Sender.FindCandidate | tftp/session.py:488-494 | the candidate loop returns the first match of the window |
| Sender.AckStep | tftp/session.py:484-494 | an ACK moves the sender to the first match in its window, finishing it at the last block, and otherwise changes nothing |
| Sender.React | tftp/session.py:467-494 | one wait and its handling is one step of the sender's specification, and moves the acknowledged block only inside the window |
| Sender.SendFile | tftp/session.py:437-494 | the whole loop, for every finite list of events, ends or waits in the specified state having sent exactly the specified packets |
| Sender.StepKeepsWellFormed | tftp/session.py:458-494 | every step keeps the acknowledged block within the file and moving forward only; an acted-on packet that does not end the transfer acknowledges new blocks |
| Sender.StepDecreases | tftp/session.py:458-494 | every effective step lowers the measure on blocks and retries left, which is positive while sending |
| Sender.SenderTerminates | tftp/session.py:458-494 | whatever arrives, the loop takes at most total blocks times (max retries + 1) effective events |
| Sender.StoppedAtBound | tftp/session.py:458-494 | from any sending state, once as many effective events as the measure allows were taken, the loop has completed or raised |
| SenderRuns.OutcomeIs | tftp/session.py:437-494 | on every list of events the loop takes them until it stops, ends in the state they lead to, and has sent one window before each of them and one more if it is still waiting |
| SenderRuns.SentIs | tftp/session.py:460-465 | each window sent is the DATA packets of as many blocks behind the acknowledged one as the window or the file has left, byte by byte |
| SenderRuns.AcknowledgedWasSent | tftp/session.py:437-494 | every block counted as acknowledged was sent, so a finished loop has sent the whole file |
| SenderRuns.RetriesAre | tftp/session.py:467-494 | the retry counter is the number of timeouts since the loop last moved on |
| SenderRuns.RaisesExactly | tftp/session.py:467-484 | the loop raises exactly on a packet without opcode, an ERROR, a short ACK, and the timeout after max_retries others since it last moved on |
| SenderRuns.MovesExactly | tftp/session.py:484-494 | the loop moves on to a block of its window exactly on an ACK with that number, with all retries given back, and finishes exactly at the last block |
| SenderRuns.Patience | tftp/session.py:467-475 | k timeouts in a row after progress leave the loop sending, its window sent k + 1 times, exactly when k is at most max_retries; one more ends it with nothing more sent |
| SenderRuns.BoundIsAttained | tftp/session.py:458-494 | some list of events takes exactly the largest number of effective events |
| Receiver.WriteInOrder | tftp/session.py:641-670 | the in-order branch with its drain loop is the specified acceptance |
| Receiver.PlaceBlock | tftp/session.py:628-676 | a DATA packet is written, buffered or refused as specified |
| Receiver.React | tftp/session.py:608-676 | one trip around the loop is one step of the receiver's specification |
| Receiver.ReceiveFile | tftp/session.py:589-676 | the whole loop, for every finite list of events, ends in the specified state having sent exactly the specified ACKs |
| Receiver.Drain | tftp/session.py:658-664 | draining stops before a block that is not buffered and touches only position, buffer and output |
| Receiver.AcceptAlone | tftp/session.py:641-670 | with nothing buffered the next block is written, acknowledged, and ends the loop exactly when short |
| ReceiverRuns.OutcomeIs | tftp/session.py:589-676 | on every list of events the loop ends in the state they lead to, having sent the ACKs they call for |
| ReceiverRuns.RaisesExactly | tftp/session.py:608-657 | the loop raises exactly on a malformed or ERROR packet, on a timeout with no retry left, and on the due block of an upload that passes its size limit or, without rollover, its block numbers |
| ReceiverRuns.AnswersExactly | tftp/session.py:608-676 | every timeout and every DATA packet that does not end the loop with an error, due or not, is answered with the ACK of the last block written, and nothing else is answered |
| ReceiverRuns.WritesOnlyDue | tftp/session.py:628-676 | only the due block changes the output, only DATA packets the buffer; DATA gives the retries back and timeouts use them up |
| ReceiverRuns.Patience | tftp/session.py:608-619 | k timeouts in a row after DATA leave the loop receiving exactly when k is at most max_retries, each answered with the ACK of the last block written; one more ends it unanswered |
| EndToEnd.DataReadBack | tftp/session.py:628-634 | a DATA packet in flight is taken for itself, refused, or filed past everything the transfer uses |
| EndToEnd.AckReadBack | tftp/session.py:485-494 | an ACK in flight is credited to the block it was sent for, or ignored |
| EndToEnd.OnDataInv | tftp/session.py:628-676 | delivering the true block keeps output, buffer and ACK right whatever else is buffered |
| EndToEnd.DrainInv | tftp/session.py:658-664 | draining true blocks writes exactly the leading blocks up to the new position |
| EndToEnd.StepInv | tftp/session.py:458-676 | every move of either end or of the channel keeps the joint invariant |
| EndToEnd.RunInv | tftp/session.py:437-676 | the joint invariant holds in every run |
| EndToEnd.InvIsSafe | tftp/session.py:437-676 | the joint invariant implies every safety clause |
| EndToEnd.SafetyWithoutRollover | tftp/session.py:437-676 | up to 65535 blocks: output is a block-aligned prefix, either end's completion implies the whole file, the reorder buffer stays below the window and ahead of the write position |
| EndToEnd.SafetyWithRollover | tftp/session.py:485-676 | the same for files of any length when every delivery is recent enough for its recipient's window |
| EndToEnd.AdmittedWithoutRolloverIsSafe | tftp/session.py:396-403 | with rollover disabled every download the admission check lets through is safe with no assumption on delays |
| EndToEnd.AdmittedIff | tftp/session.py:396-403 | with rollover disabled a download is admitted exactly when its file is smaller than 65535 blocks, with rollover always |
| LoopRefinement.EndsAreLoops | tftp/session.py:437-676 | in every joint run both ends are in the state the loops return for the events they saw, and the channel holds exactly the packets the loops sent |
| LoopRefinement.LoopsAreSafe | tftp/session.py:437-676 | what the receive loop returns is a whole number of leading blocks, and the whole file once either loop is through, up to 65535 blocks or with recent deliveries |
| EndToEndLimits.CompletionExact | tftp/session.py:658-670 | the delivery that writes the last block ends the loop exactly when that block was not waiting in the reorder buffer |
| EndToEndLimits.StrandedStep | tftp/session.py:608-676 | every step of a stranded upload leaves it stranded or failed |
| EndToEndLimits.StrandedForever | tftp/session.py:658-676 | a loop that holds the whole file but has not ended never ends by end of file, whatever is delivered |
| EndToEndLimits.SwappedBlocksStrand | tftp/session.py:671-676 | swapping the last two blocks of any permitted upload of two or more blocks strands it, for every window from 2 to 65535 |
| EndToEndLimits.WindowOneNeverStrands | tftp/session.py:631-634 | with a window of 1, or a single block, no run strands an upload |
| EndToEndLimits.StrandsIff | tftp/session.py:631-676 | a permitted upload has a run that strands it exactly when the window is above 1 and there is more than one block |
| EndToEndLimits.LockstepRuns | tftp/session.py:437-676 | block by block delivery is a possible run and keeps both ends in step |
| EndToEndLimits.CanComplete | tftp/session.py:437-676 | every file the receiver permits has, for every window below 65536, a run in which both ends complete and the file arrives |
| EndToEndLimits.StaleDataCorrupts | tftp/session.py:628-647 | for every window below 65536, one repeated DATA packet one block older than allowed ends up on disk in place of the block 65536 later, which makes the output no prefix of the data whenever the two blocks differ |
| EndToEndLimits.RepeatedAckZeroFinishesEarly | tftp/session.py:485-494 | for every window below 65536, at 65536 blocks a repeated ACK 0 within a window of the end finishes the sender while the receiver waits |
| ReadEngine.FillIsTrue | c_core/session.c:271-307 | a fill started at a block and its offset queues exactly the true frames of consecutive blocks, and reports end of file exactly when it queued the last |
| ReadEngine.FillWindowTrue | c_core/session.c:271-307 | the same for a whole window |
| ReadEngine.FillAgain | c_core/session.c:271-307 | reads beyond those a successful fill used do not change it |
| ReadEngine.MapAckExact | c_core/session.c:363-368 | an ACK is credited to the latest sent block with its number exactly when its value is at most the last block sent; otherwise it becomes a number near 2^32 |
| ReadEngine.MapAckInverts | c_core/session.c:363-368 | a sent block is recovered from its 16-bit ACK exactly when fewer than 65536 blocks were sent since |
| ReadEngine.CounterBound | c_core/session.c:363-368 | the ACK of the block just sent is recognised exactly while that block is more than 65536 below 2^32 |
| ReadEngine.PrebuildKeeps | c_core/session.c:312-332 | prebuilding keeps the invariant, starts right behind the window at its byte offset, and appends to what the queue held |
| ReadEngine.SendWindowKeeps | c_core/session.c:335-358 | sending from disk keeps the invariant and leaves the old queue contents in front of the new prebuild |
| ReadEngine.CreditKeeps | c_core/session.c:374-390 | crediting a sent block sets position and offset right, and completes exactly on the last block |
| ReadEngine.FlushKeeps | c_core/session.c:392-408 | flushing the prebuilt window keeps the invariant |
| ReadEngine.OnAckKeeps | c_core/session.c:362-415 | an ACK of a sent block keeps the invariant and completes the session exactly when it is the ACK of the final block |
| ReadEngine.OnTimeoutKeeps | c_core/session.c:703-722 | a retransmission or giving up keeps the invariant and completes nothing |
| ReadEngine.BeginKeeps | c_core/session.c:539-545 | the first window sets up the invariant |
| ReadEngine.RunKeeps | c_core/session.c:271-415 | the invariant holds in every run in which ACKs are of blocks up to the end of the window, however old |
| ReadEngine.UnderstoodKeeps | c_core/session.c:271-415 | the invariant holds in every run in which no ACK value beyond the window reaches a session that has more to send |
| ReadEngine.EveryFrameIsTrue | c_core/session.c:283-302 | in those runs every frame ever sent decodes to the block number and file slice of its block |
| ReadEngine.PositionInEveryRun | c_core/session.c:335-415 | in those runs, while sending, offset, window and end-of-file mark are exact; a completed session has sent every block and counted every byte |
| ReadEngine.CompletedByFinalAck | c_core/session.c:380-386 | the event that completes a session is an ACK with the final block's number after that block was sent, and it is the ACK of the final block exactly when it is not older than 65535 blocks |
| ReadEngine.CompletedOnlyByFinalAck | c_core/session.c:380-386 | with ACKs not older than 65535 blocks, a session completes only by the ACK of the final block |
| ReadEngine.StaleAckCompletes | c_core/session.c:363-386 | with the file fully sent, the ACK of any block a whole number of cycles before the final one completes the session |
| ReadEngine.UntransmittedAckBelieved | c_core/session.c:366-389 | an ACK whose value is above the last block sent completes a fully sent session, and otherwise moves the block counter near 2^32 and the offset to the end of the file |
| ReadEngine.PrebuiltContents | c_core/session.c:315-331 | a valid prebuilt queue is the frames left before followed by exactly the next window |
| ReadEngine.FastAgainstSlow | c_core/session.c:392-414 | what a full ACK does with the prebuild and without it, side by side |
| ReadEngine.PrebuiltRefinesDisk | c_core/session.c:392-414 | when the reads succeed, flushing the prebuild gives the same position, end-of-file mark and frames as rebuilding from disk exactly when the queue held nothing before |
| ReadRefinement.TimeoutLeavesFrames | c_core/session.c:717-722 | after a retransmission the new prebuild stands behind all frames of the one it invalidated |
| ReadRefinement.DiskAckLeavesFrames | c_core/session.c:410-414 | after an ACK that goes on from disk the new prebuild stands behind all frames queued before |
| ReadRefinement.FailedPrebuildLeavesFrames | c_core/session.c:312-325 | a prebuild whose reads fail half way is not valid but leaves one frame queued for each read that worked |
| ReadRefinement.FlushLeavesNothing | c_core/session.c:396-407 | a full ACK that flushes leaves the next prebuild on an empty queue |
| ReadRefinement.AckSameIff | c_core/session.c:362-415 | from equal positions one ACK, full, partial or old, moves both engines alike exactly when it does not flush leftover frames |
| ReadRefinement.RunRefinesIff | c_core/session.c:309-415 | over every run, with timeouts, partial, repeated and old ACKs, client errors and failing reads, the engine with the queue stays indistinguishable from the one without exactly as long as every flush is clean, given that the reads a flush saves would have worked |
| ReadRefinement.LosslessAdvances | c_core/session.c:335-415 | every full ACK completes the download or moves it on |
| ReadRefinement.LosslessRefines | c_core/session.c:309-415 | at every point of a lossless download the engine with the queue and the one without have sent the same frames and stand at the same position |
| ReadRefinement.LosslessCompletes | c_core/session.c:335-415 | with or without the queue, a lossless download of blocks of at most 1998 bytes completes within as many ACKs as the file has blocks, every block sent |
| ReadRefinement.TooLargeFails | c_core/session.c:283-302 | with blocks and a file of more than 1998 bytes the download ends as a read error with nothing sent |
| ReadRefinement.LosslessCompletesIff | c_core/session.c:283-415 | a lossless download completes exactly when its block size or its file is at most 1998 bytes |
| SendLimits.BuildDataFrame | c_core/session.c:288-297 | into a 2048-byte buffer a DATA frame is built exactly for payloads up to 1998 bytes, and parses back as that packet |
| SendLimits.ChunkFitsIff | c_core/session.c:283-302 | the fill fails on a block exactly when that frame cannot be built |
| SendLimits.CostIs | c_core/pcap_io.c:117-125 | a queued frame takes 16 bytes beside its own length |
| SendLimits.SpanIs | c_core/session.c:737-740 | a queue of 128 KiB takes exactly as many full blocks as fit by these sizes |
| SendLimits.FirstWindowIs | c_core/session.c:335-360 | the first window of a long enough download is exactly that many blocks, in order |
| SendLimits.LargestWindowFits | c_core/session.c:527-531 | a window of 64 blocks of 1468 bytes fits the queue |
| SendLimits.DownloadPatience | c_core/session.c:703-722 | with working reads a sending session endures five timeouts in a row, sends its window again for each, and is let go on the sixth |
| SendLimits.AckGivesRetriesBack | c_core/session.c:362-415 | an ACK that moves a session on gives all retries back |
| ReadRefinement.StaleAckEndsDownload | c_core/session.c:363-386 | every downloadable file of more than 65536 blocks has a run in which the ACK of a block 65536 before the final one ends the download as complete |
| DownloadWindow.AckKeepsIff | c_core/session.c:362-415 | with a working read, an ACK keeps the invariant exactly when its value is within the window or everything is sent |
| DownloadWindow.InvariantIff | c_core/session.c:271-415 | over every run the invariant holds throughout exactly when no ACK value beyond the window reaches a session that has more to send |
| DownloadWindow.FillReaches | c_core/session.c:283-302 | a successful fill goes at least as far as the queue has room for |
| DownloadWindow.StepTidy | c_core/session.c:335-415 | while flushes are covered by their prebuild, every step keeps what was sent within the window, and the window never shrinks |
| DownloadWindow.SentWithinWindow | c_core/session.c:335-415 | in every run with covered flushes a client that acknowledges only what it was sent stays within the window, and nothing was ever sent beyond it |
| DownloadWindow.CleanIsCovered | c_core/session.c:396-407 | a flush that finds nothing from before its prebuild is covered |
| DownloadWindow.UncoveredOverruns | c_core/session.c:396-407 | a flush that is not covered sends beyond the window it moves on to |
| DownloadWindow.SentWithinIff | c_core/session.c:335-415 | for a client that acknowledges only what it was sent, over every run: nothing was ever sent beyond the window exactly when every flush was covered |
| DownloadWindow.GaplessRun | c_core/session.c:335-415 | up to and including the first flush that is not covered, everything before a sent block was sent |
| WindowOne.WindowOneCovered | c_core/session.c:335-415 | with a window of one block and working reads every flush is covered in every run, timeouts included |
| WindowOne.NeverFlushes | c_core/session.c:312-332 | without the queue, or with blocks too large for a packet, there is no flush |
| Overrun.FillExact | c_core/session.c:283-302 | of full blocks a fill queues exactly as many as fit the queue |
| Overrun.PilesOverrun | c_core/session.c:312-408 | after ACKs of single blocks and timeouts have filled the queue, one more timeout and a full ACK make a flush that is not covered |
| Overrun.LeftoversOverrun | c_core/session.c:312-408 | with a window above one block every long enough download has a run, with working reads and a client that acknowledges only what it was sent, that sends beyond the window |
| Overrun.StaysWithinIff | c_core/session.c:312-415 | with working reads and such a client, no run of a long enough download sends beyond the window exactly when the window is one block |
| DownloadWindow.EmptyBlockFollows | c_core/session.c:363-414 | the ACK of a block beyond the window makes the session send an empty block under the next number |
| Downloads.ClientTakes | tftp/session.py:628-676 | a true frame that is recent keeps the client in step with the file |
| Downloads.ServerAhead | c_core/session.c:335-415 | no step of the server gets more than two windows ahead of the client |
| Downloads.JointInEveryRun | c_core/session.c:335-415 | the joint invariant of session and client holds in every run over the channel |
| Downloads.DownloadIsSafe | c_core/session.c:335-415 | in every run with ACKs of the window not older than 65535 blocks (and, beyond 65535 blocks, recent frames) the client holds leading blocks, and a download that either end counts as complete is the whole file |
| Downloads.CoveredDownloadIsSafe | c_core/session.c:335-415 | up to 65535 blocks and with covered flushes the same holds with no assumption on the channel |
| Downloads.BenignDownloadIsSafe | c_core/session.c:335-415 | up to 65535 blocks and with working reads the same holds of every run with a window of one block, without the queue, or with blocks too large for a packet |
| Downloads.CatchUp | tftp/session.py:628-676 | a receiving client can be brought to hold every block up to any that was sent |
| Downloads.Realise | c_core/session.c:335-415 | every unfinished server run with covered flushes and ACKs of sent blocks is the server's part of a run with a receiving client |
| Downloads.OverrunTruncates | c_core/session.c:363-414 | from every run that ends in the first flush that is not covered, with the client receiving and data left beyond what was sent, the client can end with part of the file as if it were all |
| Downloads.LeftoversTruncate | c_core/session.c:312-414 | with a window above one block every permitted, long enough download of up to 65535 blocks has a run with working reads after which the client takes part of the file for all of it |
| Downloads.DownloadSafeIff | c_core/session.c:335-415 | up to 65535 blocks and with working reads, a permitted, long enough download is safe in every run exactly when the window is one block, there is no queue, or its blocks are of more than 1998 bytes |
| ReadSessions.ReadSession.FillQueue | c_core/session.c:271-307 | the fill loop is the specified fill, which `ChunkFitsIff` and `BuildDataFrame` tie to the packet size |
| ReadSessions.ReadSession.PrebuildNextWindow | c_core/session.c:312-332 | the in-place prebuild is the specified one |
| ReadSessions.ReadSession.TransmitWindow | c_core/session.c:335-358 | the in-place send is the specified one |
| ReadSessions.ReadSession.CreditAck | c_core/session.c:374-390 | the first half of the ACK handler is the specified crediting |
| ReadSessions.ReadSession.FlushAndPrebuild | c_core/session.c:396-407 | the fast path is the specified flush |
| ReadSessions.ReadSession.HandleAck | c_core/session.c:362-415 | the ACK handler leaves exactly the specified session; for an ACK within the window it keeps the invariant and completes exactly on the final block |
| ReadSessions.ReadSession.HandleTimeout | c_core/session.c:703-722 | the retransmission timer leaves exactly the specified session, keeps the invariant and completes nothing |
| UploadEngine.OnlyNextIsNext | c_core/session.c:429-432 | whatever the 32-bit wrap does, only the number of the next block is taken for it |
| UploadEngine.NextIsRecognised | c_core/session.c:429-432 | the next block is recognised exactly while it is more than 65536 below 2^32 |
| UploadEngine.AheadExact | c_core/session.c:429-442 | the exact fate of a block however far ahead: written as the next one when it has its number, acknowledged unwritten when its number is below the next one or more than half the number space above it past 65536 blocks, dropped otherwise |
| UploadEngine.AheadAcknowledgedIff | c_core/session.c:429-442 | a block at most 32768 ahead is dropped in silence exactly when no multiple of 65536 lies in between, and is acknowledged unwritten otherwise |
| UploadEngine.DataKeeps | c_core/session.c:427-481 | every DATA packet keeps the upload invariant |
| UploadEngine.TimerKeeps | c_core/session.c:703-727 | the re-ACK timer keeps the upload invariant |
| UploadEngine.DuplicateWasWritten | c_core/session.c:429-437 | up to 65535 blocks, what is re-acknowledged as a duplicate was written |
| UploadEngine.UploadInvariant | c_core/session.c:427-481 | in every run the file is the concatenation of accepted payloads under consecutive numbers, the byte count is exact and within the cap, only a short block commits, and up to 65535 blocks every ACK names a written block or 0 |
| UploadEngine.UploadIsPrefix | c_core/session.c:427-481 | against a client that sends the blocks of a file of any length in any order and number, none delivered a full cycle of numbers early or late, the file on disk is a prefix of the data and a committed one is all of it |
| UploadEngine.SmallUploadIsPrefix | c_core/session.c:427-481 | up to 65535 blocks the same holds with no assumption on delays |
| UploadEngine.CycleAwayIsWritten | c_core/session.c:429-481 | after n blocks in order, any block of the file leaves a leading part of the data on disk exactly when it has not the number of the block that is due, or has its contents |
| UploadEngine.DataEffect | c_core/session.c:427-481 | one DATA packet grows the file by its payload under the number that is due or leaves it alone, respects the cap, and commits only when short and written |
| UploadEngine.DataExact | c_core/session.c:427-481 | everything one DATA packet does: only the due number counts; that block is refused exactly when it passes the cap, lost exactly when the disk fails, and otherwise written and acknowledged, ending the upload exactly when short |
| UploadEngine.GoesThroughIff | c_core/session.c:444-480 | an upload in order with a working disk is committed as the whole file exactly when the file is within the cap, and refused for its size otherwise |
| UploadEngine.UploadPatience | c_core/session.c:703-727 | an upload endures five timers in a row, repeats the ACK of the last block written for each, and is let go on the sixth |
| UploadSessions.UploadSession.TakeFor | c_core/session.c:429-432 | the packet is taken for a block with its number, and for the next block only under that block's number |
| UploadSessions.UploadSession.HandleData | c_core/session.c:427-481 | the DATA handler keeps the upload invariant; the file grows by the payload only under the number that is due, stays within the cap, and is committed only on a short block that was written |
| UploadSessions.UploadSession.HandleTimer | c_core/session.c:703-727 | the re-ACK timer keeps the upload invariant, leaves the file alone and repeats the ACK of the last block written |
| Uploads.AlwaysInStep | tftp/session.py:485-494 | up to 65535 blocks the client is never credited with a block that is not written |
| Uploads.FinishedMeansWritten | c_core/session.c:427-481 | up to 65535 blocks, in every run over the channel, a client that has finished has had the whole file written |
| Uploads.FinishedBeforeCommit | c_core/session.c:461-481 | every upload has a run in which the client finishes and the commit fails |
| Uploads.LostBlockFinishesEarly | c_core/session.c:429-442 | for every window above one block and 65536 to 131070 blocks, losing block 65535 lets the client finish with nothing written from there on |
| SessionTable.DeliverKeeps | c_core/session.c:653-693 | a packet ends a session at most once and in at most one counted way, and never changes the count of one that is over |
| SessionTable.BegunOk | c_core/session.c:485-600 | every started session is in an accountable state |
| SessionTable.SessionManager.constructor | c_core/session.c:193-204 | an empty table satisfies the accounting |
| SessionTable.ExpireKeeps | c_core/session.c:703-728 | a timer neither completes nor fails a session |
| SessionTable.SessionManager.AllocSlot | c_core/session.c:193-204 | the first free slot, and none exactly when the cap is reached |
| SessionTable.SessionManager.Find | c_core/session.c:182-191 | the first busy slot with the packet's addresses, or none when there is none |
| SessionTable.SessionManager.TakeTid | c_core/session.c:630-639 | the port of the counter, and the counter advanced modulo 65536 |
| SessionTable.SessionManager.OnRequest | c_core/session.c:612-651 | the accounting is kept, a request is turned away exactly at the cap, and an accepted one takes one free slot and one port, is counted by its kind and does not pass the cap |
| SessionTable.SessionManager.OnPacket | c_core/session.c:653-693 | the accounting is kept, the packet reaches the first session with its addresses or, exactly when there is none, nobody, becomes part of that slot's history, and each counter moves only with a session that ends that way |
| SessionTable.SessionManager.TickSlot | c_core/session.c:699-729 | one slot of a tick is freed, retried or left, and the accounting is kept |
| SessionTable.SessionManager.Tick | c_core/session.c:697-730 | every slot is ticked once, the accounting is kept and no counter but the active count moves |
| SessionTable.TidsDistinct | c_core/session.c:11-12 | from any counter value 5536 consecutive ports are pairwise distinct and in 40000..59999 |
| SessionTable.TidBoundExact | c_core/session.c:11-12 | from counter 60000 the 5537th port repeats the first |
| SessionTable.PortsRepeatIff | c_core/session.c:11-12 | while the 16-bit counter does not start over, two ports are equal exactly when a multiple of 20000 requests lies between them |
| SessionRuns.CurrentIsMeaning | c_core/session.c:602-730 | whatever inputs reached a slot, it is the download run of its ACKs, timeouts and errors from the first ACK 0 on, the upload run of its packets and timers, or over |
| SessionRuns.NothingBeforeAckZero | c_core/session.c:653-671 | a download with options has begun exactly when an ACK 0 arrived with no ERROR before it, and has sent nothing otherwise |
| SessionRuns.SlotFramesAreTrue | c_core/session.c:271-415 | every frame a slot has sent is the true DATA packet of its block, as long as no ACK beyond its window reached it |
| SessionRuns.SlotUploadsKeep | c_core/session.c:427-481 | every upload slot keeps the upload invariant whatever reached it |
| SessionRuns.SlotsAreRuns | c_core/session.c:602-730 | after any requests, packets and ticks every busy slot of the table is the run of its history, and uploads keep their invariant |
| SessionRuns.TickExact | c_core/session.c:697-730 | a tick frees a slot exactly when its session has ended or its timer runs out after five retries, and otherwise uses up one retry exactly when the timer ran out |
| SessionRuns.FailsExactly | c_core/session.c:444-480 | a packet is counted as a failure exactly when it is the due block of an upload within its cap and the disk or the final commit fails |
| SessionRuns.CompletesExactly | c_core/session.c:362-480 | a packet is counted as a completion exactly when it is the short due block, written and committed, or the ACK taken for the last block of a fully sent download |
| Json.StrCopyInvertsEscape | c_core/json.c:171-190 | copying out an escaped string gives the string, cut to the buffer |
| Json.CopyExact | c_core/json.c:171-190 | copying out takes a backslash with n, r or t for newline, return or tab, with any other character for that character, and stops one short of the buffer |
| Json.FindField | c_core/json.c:162-169 | the first field with the key, or none when no field has it |
| Json.TakeNumber | c_core/json.c:54-60 | the token and the rest make up the input, the token is all number characters and the rest starts with none |
| JsonGrammar.ValueParses | c_core/json.c:71-144 | every well-formed text, whatever follows it (but no number character after a number), is read as its tree and nothing more is consumed |
| JsonGrammar.ValueSound | c_core/json.c:71-144 | every accepted input is a well-formed text with that tree |
| JsonGrammar.ItemsParse | c_core/json.c:71-89 | the items of an array, with any blanks, are read in order |
| JsonGrammar.MembersParse | c_core/json.c:91-118 | the members of an object, with any blanks, are read in order |
| JsonGrammar.ItemsSound | c_core/json.c:71-89 | accepted items are items of the grammar |
| JsonGrammar.MembersSound | c_core/json.c:91-118 | accepted members are members of the grammar |
| JsonGrammar.ReaderIsGrammar | c_core/json.c:120-153 | the reader returns a tree and a rest exactly when the input is a text of the grammar with that tree followed by that rest |
| JsonGrammar.ReadsExactly | c_core/json.c:20-153 | the same with the leading blanks written out: blank, tab, newline and return in front of a text of the grammar |
| JsonGrammar.EscapedIsRaw | c_core/json.c:36-52 | escaped text never ends its string early |
| JsonRoundTrip.PrintIsFaithful | c_core/json.c:71-144 | canonical text is well formed, and its tree with the strings copied out is the printed value |
| JsonRoundTrip.ReadInvertsPrint | c_core/json.c:120-190 | reading the canonical text of any value whose numbers are number tokens, followed by anything that does not prolong a number, consumes exactly that text and gives the value back |
| JsonParser.Parser.SkipWs | c_core/json.c:20-26 | the cursor skips exactly the blanks |
| JsonParser.Parser.ParseStringRaw | c_core/json.c:36-52 | the scan returns the specified raw text, never passes the end, and moves on when it succeeds |
| JsonParser.Parser.ParseNumber | c_core/json.c:54-63 | the longest run of number characters is taken |
| JsonParser.Parser.ParseArray | c_core/json.c:71-89 | the array loop agrees with the specification and the cursor never passes the end |
| JsonParser.Parser.ParseArrayItems | c_core/json.c:78-88 | the item loop reads the specified items |
| JsonParser.Parser.ParseObject | c_core/json.c:91-118 | the object loop agrees with the specification and the cursor never passes the end |
| JsonParser.Parser.ParseObjectMembers | c_core/json.c:98-117 | the member loop reads the specified members |
| JsonParser.Parser.ParseOneMember | c_core/json.c:99-110 | one member is read as specified and consumes input |
| JsonParser.Parser.ParseAny | c_core/json.c:120-144 | a value is read as specified, and a success consumes input |
| JsonParser.Parse | c_core/json.c:146-153 | the entry point returns the specified tree, whatever follows it |
| JsonParser.CopyString | c_core/json.c:171-190 | the copy loop is the specified copy |
| Cache.EvictKeepsLongestSuffix | files/cache.py:91-94 | eviction keeps exactly the longest most-recently-used suffix that fits the budget |
| Cache.LastSurvives | files/cache.py:89-94 | the newest entry survives exactly when it fits alone, and otherwise everything goes |
| Cache.FileCache.constructor | files/cache.py:23-30 | a new cache is empty with an exact byte count |
| Cache.StoreMeetsBudget | files/cache.py:84-94 | after a store the cache fits its budget, has no name twice, and holds the new file exactly when that alone fits |
| Cache.FileCache.Peek | files/cache.py:96-107 | a hit returns the entry and makes it the last, the others keeping their order; a miss changes nothing; the byte count stays exact |
| Cache.FileCache.Store | files/cache.py:84-94 | a store leaves the specified entries with the byte count exact |
| Cache.FileCache.Invalidate | files/cache.py:118-124 | one entry or all are dropped with the byte count exact |
| Cache.FileCache.Update | files/cache.py:33-41 | new limits keep the entries, disabling drops them, and the byte count stays exact |
| Cache.TouchIs | files/cache.py:96-107 | a hit moves its one entry behind all others, which keep their order |
| CacheRecency.OrderedByUse | files/cache.py:84-124 | over every history of looks, stores and invalidations the entries stand in the order of their last use |
| CacheRecency.EvictsLeastRecent | files/cache.py:91-94 | what a store evicts was used less recently than everything it keeps |
| CacheRecency.HoldsLastStored | files/cache.py:84-124 | over every history each entry holds what was last stored under its name |
| CacheLoads.RunKeeps | files/cache.py:44-107 | in every interleaving entries and resolved futures hold what the source holds, and loads in flight are one per name |
| CacheLoads.StepKeeps | files/cache.py:44-124 | every atomic step of a caller, a loader or the configuration keeps the invariant |
| CacheLoads.AnswersAreSource | files/cache.py:44-82 | every answer, by hit, join or own load, is exactly what the source holds, except that a load that raised is answered like a missing file; the answer is wrong exactly when such a file exists |
| CacheLoads.OneLoadPerName | files/cache.py:51-58 | at most one load per name is outstanding, and it is the one callers join |
| CacheRecency.LoadsAreHistory | files/cache.py:33-124 | in every interleaving of callers, loaders and the configuration the entries are those of a history of uses and in the order of their last use |
| CacheRecency.LookExact | files/cache.py:44-50 | a call is answered from the cache exactly when the cache is on and has the file |
| CacheRecency.LoadExact | files/cache.py:60-82 | a file that was read is stored exactly when it exists, the cache is on and it is within the size limit; otherwise callers get the result at once |
| CacheRecency.JoinExact | files/cache.py:51-58 | a miss waits for the load in flight, or starts one exactly when there is none |
| LineFramer.SplitIsFaithful | c_core/ipc.c:45-58 | splitting loses nothing and leaves no newline in a line or in the rest |
| LineFramer.SplitIsUnique | c_core/ipc.c:45-58 | it is the only way to cut a text into newline-free lines and a rest |
| LineFramer.SplitConcat | c_core/ipc.c:45-58 | splitting a stream in two reads with the rest carried over is splitting it at once |
| LineFramer.StripIs | c_core/ipc.c:50 | what is handed over is the line up to the carriage returns it ends in, all of them and nothing else |
| LineFramer.DeliveredIs | c_core/ipc.c:46-58 | every complete line is handed over, stripped, in order |
| LineFramer.OverlongLine | c_core/ipc.c:34-38 | a full buffer without a newline means that some line does not fit |
| LineFramer.ChunkingIsIrrelevant | c_core/ipc.c:31-59 | however a stream is cut into reads, lines and rest are those of the whole stream, and if every line fits no read loses anything |
| LineFramer.Framer.StripEnd | c_core/ipc.c:50 | trailing carriage returns are removed and nothing else |
| LineFramer.Framer.DeliverLines | c_core/ipc.c:46-58 | the callback gets exactly the complete lines and the buffer keeps the rest |
| LineFramer.Framer.MoveDown | c_core/ipc.c:55-58 | the unfinished line moves to the front of the buffer |
| LineFramer.Framer.Accept | c_core/ipc.c:40-58 | one read delivers its complete lines and keeps the rest |
| LineFramer.Framer.MakeRoom | c_core/ipc.c:34-38 | a full buffer loses its older half |
| LineFramer.Framer.Poll | c_core/ipc.c:22-61 | however the bytes are split into reads, lines and rest are those of the stream while nothing was lost, and a poll that reads everything loses bytes exactly when some line does not fit the buffer |
| Checksum.InetCsum | c_core/util.c:45-52 | the loop computes the checksum, its 32-bit accumulator never overflows up to 131074 bytes, and folding ends |
| Checksum.PyChecksum | tftp/session.py:81-90 | the Python loop computes the same number for every buffer |
| Checksum.OddIsPadded | c_core/util.c:45-52 | a buffer of odd length has the checksum of itself with a zero byte behind it |
| Checksum.FoldResidue | c_core/util.c:50 | folding keeps the sum modulo 65535 |
| Checksum.VerifiesIff | c_core/util.c:45-52 | a buffer verifies exactly when its word sum is a positive multiple of 65535 |
| Checksum.ChecksumSelfVerifies | c_core/packet.c:98-114 | the checksum written into its zeroed field at an even offset makes any buffer verify |
| Checksum.ChangeNoticedIff | c_core/util.c:45-52 | changing one aligned word goes unnoticed exactly when it stays equal or swaps 0 and 65535, the words not being all 0 afterwards |
| Frames.ViewStaysInside | c_core/packet.c:10-80 | for every input of at most 65535 bytes the payload view lies inside it |
| Frames.L4InsideIff | c_core/packet.c:56-79 | for inputs of any length the transport view lies inside the input exactly when the announced UDP length is usable or the low 16 bits of what there is are at least 8 |
| Frames.BareUdpLength | c_core/packet.c:56-72 | a family of inputs that announce no lengths, and exactly when the parser gives them a payload outside the input |
| Frames.FrameRoundTrip | c_core/packet.c:10-140 | parsing a built frame recovers addresses, ports, tag id, tag priority and exactly the payload |
| Frames.CaptureParses | c_core/packet.c:10-80 | any input that starts with a built frame's headers is parsed as that frame, with the payload as long as announced or as the input holds |
| Captures.HeardIsCut | c_core/packet.c:56-72 | of a captured DATA frame the server hears the block's number and as much of its payload as was captured |
| Captures.WholeCapturesUpload | c_core/session.c:427-481 | an upload that hears only whole captures holds a prefix of the data, and a committed one all of it |
| Captures.CutFrameCommits | c_core/session.c:466-481 | a cut-off frame of the block that is due commits the upload short of the data |
| Captures.CaptureLimit | c_core/pcap_io.c:20 | a capture takes in a whole frame exactly when headers and block fit 2048 bytes |
| Frames.FrameHeaderVerifies | c_core/packet.c:98-114 | the IPv4 header of every built frame verifies |
| FrameFields.BuiltFields | c_core/packet.c:82-140 | every byte of a built frame behind its Ethernet type: version, lengths, identification, flags, 64 hops, protocol, a checksum that verifies, addresses, ports and no UDP checksum |
| FrameFields.EthTypeIs | c_core/packet.c:82-97 | the type and tag bytes of the Ethernet header |
| FrameFields.ParseExact | c_core/packet.c:10-80 | exactly which inputs the parser refuses, and where it takes addresses, tag and type from |
| FrameFields.IpExact | c_core/packet.c:40-79 | exactly which IPv4 packets the parser refuses, and where it takes protocol, addresses, header length and the transport part from |
| FrameFields.ArpExact | c_core/packet.c:30-38 | the places of the fields of an ARP packet |
| Frames.PyTagReadsBack | tftp/session.py:252-257 | id and priority put into a Python tag are those the C parser reads, with the drop bit between them |
| Frames.PacketBuilder.WriteIpHeader | c_core/packet.c:98-114 | the header written, summed and patched in place is the specified one, and nothing behind it changes |
| Frames.PacketBuilder.BuildUdp4 | c_core/packet.c:116-140 | the buffer's front becomes the specified frame and the rest stays, or nothing changes when the buffer is too small |
| Frames.BuildFrameFast | tftp/session.py:243-291 | the Python builder makes the specified frame with identification 0 |
| Decimal.PyIntOfStr | tftp/options.py:114-133 | reading a printed integer gives it back |
| Negotiation.IntIsRead | tftp/options.py:114-133 | blanks around a number, a sign in front and single underscores between digits do not keep it from being read as its value |
| Negotiation.IntIsOnlyThat | tftp/options.py:114-133 | every text that is read as a number is of this form |
| OptionText.SplitCStrings | tftp/protocol.py:72-86 | the loop returns the specified strings |
| OptionText.SplitInvertsJoin | tftp/protocol.py:72-86 | splitting NUL-closed strings gives them back |
| OptionText.BuildDict | tftp/protocol.py:98-107 | the pair loop builds the specified dictionary |
| OptionText.LowerIs | tftp/protocol.py:98-107 | keys have the letters A to Z made small and nothing else changed |
| Negotiation.SplitReads | tftp/protocol.py:72-86 | a last string without its NUL counts like any other unless it is empty |
| Negotiation.DictExact | tftp/protocol.py:98-107 | the dictionary has exactly the lower-case keys of the pairs, each with the value of its last pair; empty keys and a key without a value do not count |
| OptionText.OackRoundTrip | tftp/protocol.py:72-150 | a client that splits a packed OACK finds exactly the packed pairs |
| Options.NegotiateOptions | tftp/options.py:79-169 | the step-by-step negotiation gives the values, transfer size and reply that `NegotiationExact` describes |
| Negotiation.NegotiationExact | tftp/options.py:49-169 | what each policy grants: the value asked for, the default or a limit, brought within the limits; and exactly which options the reply carries, in which order and with which text |
| Negotiation.RequestInsideIsGranted | tftp/options.py:49-143 | under the client policy a block size inside the limits is granted as it is and echoed |
| Options.PackOackPacket | tftp/protocol.py:146-150 | the packing loop makes the specified packet |
| Options.OnlyRequestedKeys | tftp/options.py:122-161 | every option in the OACK was requested |
| Options.AgreementIff | tftp/options.py:124-143 | both ends agree on block and window size exactly when the policy follows the client, or the client asked, or the configured rule yields the classic value for a silent client |
| Options.ClientPolicyAgrees | tftp/options.py:49-143 | under the client policy the ends always agree, values stay within the limits, and a request at or above the lower limit is never exceeded |
| Options.SilentClientDisagrees | tftp/options.py:124-133 | under the server policy a silent client is left with 512 while the server uses its default |
| COptions.TakeString | c_core/tftp.c:13-20 | one string is taken and the position moves behind its NUL, or to the end when there is none |
| COptions.ParseOptions | c_core/tftp.c:44-73 | the option loop reads the specified request |
| COptions.RereadOack | c_core/tftp.c:44-141 | reading an OACK's options back through the request loop gives exactly the values in range |
| COptions.OackIsExactIff | c_core/tftp.c:44-141 | the OACK says what was negotiated exactly when every value is in the protocol's range |
| COptions.BothEndsAgree | c_core/session.c:248-261 | under sane limits a client reading the OACK by the same rules gets the session's block and window size |
| Negotiation.CGrantsExactly | c_core/session.c:248-261 | a value inside the limits is granted as it is, one outside becomes the nearer limit (the upper one when the limits cross), an option not asked for is not granted, and the size is filled in exactly when asked for |
| Negotiation.CReads | c_core/tftp.c:44-73 | the option loop reads every closed pair, the last value in range counting for each option, and stops at a pair that is not closed |
| Negotiation.StrtolIs | c_core/tftp.c:44-73 | a value is read as blanks, a sign and digits, with what follows ignored and the result saturated |
| COptions.WriteOption | c_core/tftp.c:105-113 | one pair is appended, or nothing changes when it does not fit |
| COptions.BuildOack | c_core/tftp.c:115-141 | the buffer's front becomes the specified OACK, and 0 is returned exactly when it does not fit |
| COptions.BuildPairs | c_core/tftp.c:115-141 | the pairs are written one behind the other, or 0 is returned exactly when they do not fit |
| COptions.OackFitsBuffer | c_core/session.c:533-536 | the 512-byte buffer always suffices |
| Locks.FileLockManager.TakeRead | core/file_lock.py:54-59 | a reader enters exactly when there is no writer; every entry stays held, by readers or one writer and never by both |
| Locks.FileLockManager.DropRead | core/file_lock.py:61-67 | a reader leaves and an unheld entry goes; every entry stays held, by readers or one writer and never by both |
| Locks.FileLockManager.TakeWrite | core/file_lock.py:69-74 | a writer enters exactly when nobody is inside; every entry stays held, by readers or one writer and never by both |
| Locks.FileLockManager.DropWrite | core/file_lock.py:76-82 | a writer leaves and an unheld entry goes; every entry stays held, by readers or one writer and never by both |
| Locks.FileLockManager.Gc | core/file_lock.py:84-86 | only an unheld entry is dropped |
| Locks.EnterExact | core/file_lock.py:54-74 | a session that enters is counted, and one that is turned away changes no count |
| Locks.LeaveExact | core/file_lock.py:61-82 | a session that leaves is no longer counted |
| Locks.TableIsExact | core/file_lock.py:54-110 | in every interleaving the table counts exactly the readers and the writer inside, never both or two writers, and has no unheld entry |
| Locks.WriterIsAlone | core/file_lock.py:54-110 | no session ever writes a file another one holds |
| Locks.AdmittedIff | core/file_lock.py:54-110 | in every interleaving a reader is let in exactly when nobody writes the file, a writer exactly when nobody holds it |

## Left out

- ReadEngine.RunKeeps: files of fewer than 2^32 - 65536 blocks, beyond which the ACK mapping itself fails (`CounterBound`).
- ReadEngine.EveryFrameIsTrue: a frame is its TFTP packet; the Ethernet, IPv4 and UDP bytes around it are in `Frames.dfy`, and only their length enters the queue's capacity.
- SessionTable.SessionManager.OnRequest: session counters are unbounded here and 32 bits wide in the source, so the accounting is that of fewer than 2^32 sessions.
- SessionTable.SessionManager.Tick: whether a timer has run out is given for each slot; the clock and the timeout value are not modelled, so also sessions whose timer never starts may expire.
- Uploads.FinishedMeansWritten: the client is the send loop of the Python engine.
- Downloads.DownloadIsSafe: the client is the receive loop of the Python engine with the negotiated block and window size.
- CacheLoads.AnswersAreSource: the source does not change during a run.
- Frames.ViewStaysInside: inputs of at most 65535 bytes; `L4InsideIff` has the exact condition for longer ones.
- Checksum.InetCsum: buffers of at most 131074 bytes, up to which the 32-bit accumulator cannot overflow; the callers sum 20-byte headers and single packets.
- UploadEngine.AheadExact: assumes the next block is more than 65536 below 2^32, beyond which the mapping fails already for the next block (`NextIsRecognised`); so do the failing runs of `CycleAwayIsWritten` and `CutFrameCommits`.
- UploadEngine.DataExact: assumes the same, and so do `UploadEngine.GoesThroughIff`, `SessionRuns.FailsExactly` and `SessionRuns.CompletesExactly`.
- SendLimits.DownloadPatience: with working reads and blocks that fit a packet; a read that fails ends the session at once.
- SessionRuns.SlotFramesAreTrue: as in `ReadEngine.EveryFrameIsTrue`, no ACK beyond the window may have reached a session with more to send; `DownloadWindow.InvariantIff` shows that this cannot be dropped.
- SessionTable.PortsRepeatIff: until the 16-bit counter starts over; `TidsDistinct` and `TidBoundExact` hold across it.
- Overrun.StaysWithinIff: long enough means more blocks than the single ACKs that fill the queue and two windows; `SentWithinIff` is exact for files of any length.
- Frames.FrameRoundTrip: payloads up to 65507 bytes, the most an IPv4 packet holds.
- Sending an OACK and waiting for its ACK in the Python engine (a bounded retry loop without further state), TFTP error packets and their texts.
- ARP replies and ICMP echo replies: the same header builder and checksum with other constants.
- The value of a JSON number (`strtod`) and the typed getters over `jn_field`.
- Policy names as text and the legacy `option_mode` spellings; a policy is its meaning here.
- Cancellation of a coroutine while it waits for a lock, and the event loop's own scheduling beyond interleaving at waits.
- Requests that fail to parse or are refused by an access list before a session exists.
- Packet capture, sockets, FTP, the file system, configuration loading, access lists, statistics, logging, the web interface and process supervision.
