# A verified model of woo-tftpd

woo-tftpd is a TFTP server (derived from tftpd-hpa) that reports its running transfers to a small GUI through a table in
shared memory. This project models the parts of it that carry state from one packet, block, timer tick or process to the
next, and proves what they guarantee over whole runs.

Check everything with `dafny verify dfyconfig.toml`.

## What is modelled

* **The transfer** (`BlockNumbers`, `Chunks`, `Machines`, `MachineRuns`, `LossyLink`, `RolloverLimit`, `Progress`,
  `Reactions`, `Timing`). `tftp_sendfile` and `tftp_recvfile` are step machines that react to packets and timeouts;
  joined by two FIFO channels that may lose and repeat packets at any point they form a system whose reachable states
  are all described by one alternating-bit style invariant, for any number of wraps of the 16-bit block number.
  `Reactions` says, over all runs, what each event makes each side do.
* **The two-buffer layer** (`Netascii`, `ReadAheads`, `WriteBehinds`). The buffers, their status counters, the rotating
  indices and the conversion flags are classes; the file is edited in place by seeking back. They are proved against a
  pure encoder and a pure look-ahead decoder.
* **The loops** (`TransferLoops`, `EndToEnd`). The nested loops of both transfer functions work on the two-buffer layer
  and are proved to do what the machines do, for every course of events. Together with the system invariant this gives
  the statement a user cares about: a file that was sent completely has arrived byte for byte. `EndToEnd.Serve` runs all
  of it in one piece, from the bytes of a request to the file on disk.
* **Requests and options** (`Numerals`, `Options`, `Requests`). The parser walks the request buffer, `do_opt` and the
  `set_*` functions change the static variables and fill the OACK.
* **The slot table** (`SlotTable`, `SlotRuns`, `SlotReclaim`, `SlotPrograms`, `SlotLateEnd`, `SlotLateLimits`,
  `SlotMeaning`). Any number of servers and one GUI interleave around a semaphore and one signal; a step is one call of
  a server, or one of the three parts of the GUI's loop body.
* **The remap engine** (`Substitution`, `PatternMeaning`, `Remap`, `RuleMeaning`). The two-pass substitution and the
  rule interpreter with its step budget; a regular expression is a function from strings to group positions.
  `PatternMeaning` and `RuleMeaning` say what patterns and rules do to a name.
* **Port selection** (`PortSearch`).

Packets are values (`Data`, `Ack`, `Oack`, `Error`, `Other`) rather than byte arrays; an acknowledgement buffer holds
one. `fired`, `waited`, `started`, `timeouts`, `accepted`, `passes` and `releases` are history: they record what
happened and no step depends on them. A run of a single machine is a sequence of events (a timeout, a packet, a failing
`send`, a failing wait), a run of a system is a sequence of actions, and an action that is not possible changes nothing,
so every sequence is a run. A packet whose `send` fails counts as handed to `send`; in the joined system it may then be
lost. A failing `send` that follows no send ends the run like a failing wait.

## Where the code does not do what one would expect

The model follows the code. These are theorems about it:

* With rollover value 65535, and only then, consecutive blocks can share a number. A transfer is safe in all runs
  exactly when the value is smaller or there are at most 65535 blocks; otherwise a single repeated ACK makes the sender
  count a block the receiver never got (`RolloverLimit.SafeExactlyWhenDistinct`, `RolloverLimit.RepeatedAckCounted`).
* The receiver recognises a repeated block by "expected number minus one", which does not follow the wrap: a repetition
  of the last block is answered unless its number is 65535. That one is passed over, or accepted as a new block if the
  rollover value is 65535 (`MachineRuns.DuplicateAnswered`); the wrap is reached in every transfer of more than 65535
  blocks (`RolloverLimit.RepeatedBlockAtWrap`). What this costs follows from the exact condition under which a transfer
  can still be completed (`Progress.CompletesExactlyWhen`): a receiver that has that block and is down to its last try,
  with its acknowledgements lost, stalls the transfer for good, however many tries the sender has left
  (`Progress.StalledForGood`, `Progress.StallReached`).
* After the last block any packet at all triggers one more final ACK, because the test looks at the header of the block
  accepted before and so always passes. The answer is the intended one exactly for repetitions of the last block and
  when no packet comes (`MachineRuns.FinalWaitAnswers`, with an acknowledged ERROR packet in
  `MachineRuns.ErrorAcknowledged`).
* The receive loop sends an ACK before it writes the block behind, and leaves without writing if that fails. With blocks
  of at least two bytes the file is incomplete exactly when the first send of an acknowledgement failed; with blocks of
  one byte a lost block can be without effect, namely the NUL of a netascii pair (`TransferLoops.SavedExactlyWhen`,
  `TransferLoops.RecvFile`, with inputs in `TransferLoops.AckFailureLosesBlock` and `TransferLoops.LossWithoutEffect`).
* The guard against two block size options is cleared at the start of every option (`Requests.Negotiator.DoOption`), so
  the last one wins and none is refused for being the second (`Options.NegotiationInForce`,
  `Options.RefusedExactlyWhen`).
* `blksize2` promises powers of two but cuts larger requests down to the maximum, which need not be one
  (`Options.PowerBlksizeIsPower`).
* A restart rule continues with the second rule, never the first (`Remap.FirstRuleNotRevisited`,
  `Remap.SingleRuleRunsOnce`).
* The server's own macro callback measures `\x` as empty, so it keeps its contract, and the measured length is right,
  exactly for patterns that do not use it (`Substitution.ServerMacrosKeep`, `Substitution.ServerMacrosAgree`).
* The message of an abort rule is undefined exactly if the rule is inverted and has one (`Remap.AbortsOnlyByRule`).
* A server that ends its operation after the GUI has dropped its slot can get the table out of order. It does no harm,
  in anything that may follow, exactly when nobody will notice: the slot is slot 0 and no operation is counted, so that
  the next operation gets this slot and clears it; in the middle of a pass, all slots in use must be about to be
  released by it and the pass must be past noting an end time for slot 0, or compute the end time 0 that stands for none
  (`SlotLateLimits.LateEndHarmlessExactlyWhen`, `SlotLateLimits.UnnoticedOutsidePass`). `SlotLateEnd.LateEndMiscounts`
  is a run from the start in which a slow server does harm: a slot is in use, none is counted and the GUI goes to sleep.

## Model

| member | source | states |
|---|---|---|
| BlockNumbers.NumberClosedForm | woo-tftpd-server/tftpd/tftpd.c:1675-1676 | iterating increment-with-rollover gives block n the number n below R and R + (n - R) mod (65536 - R) from there on, for all n |
| BlockNumbers.SharedNumber | woo-tftpd-server/tftpd/tftpd.c:1675-1676 | two blocks share a number exactly when both are at or past R and a whole number of periods apart |
| BlockNumbers.CloseBlocksDiffer | woo-tftpd-server/tftpd/tftpd.c:1720-1721 | blocks fewer than 65536 - R apart have different numbers |
| BlockNumbers.NeighboursDiffer | woo-tftpd-server/tftpd/tftpd.c:1250-1259 | consecutive blocks differ exactly when R is below 65535 or no wrap is near |
| Chunks.ChunkLength | woo-tftpd-server/tftpd/tftpd.c:1626-1677 | a block is full exactly when it is not the last of length / segsize + 1 blocks; there is nothing past the last |
| Chunks.BlocksCoverStream | woo-tftpd-server/common/tftpsubs.c:84-158 | the blocks of a stream concatenate to it |
| Chunks.BlockLengths | woo-tftpd-server/common/tftpsubs.c:84-158 | all blocks but the last are exactly a segment long and the last is shorter |
| Netascii.DecodeEncode | woo-tftpd-server/common/tftpsubs.c:113-158 | decoding undoes encoding on every file |
| Netascii.EncodedByte | woo-tftpd-server/common/tftpsubs.c:139-154 | wherever it stands, byte 10 travels as 13 10, byte 13 as 13 0 and any other as itself |
| Netascii.DecodedFront | woo-tftpd-server/common/tftpsubs.c:207-221 | 13 10 is read as 10, 13 0 as 13, and anything else, also a lone 13, as itself |
| Netascii.EncodeDecode | woo-tftpd-server/common/tftpsubs.c:175-223 | encoding undoes decoding exactly on streams in which every CR opens a pair and no LF stands alone |
| Netascii.DecodeSnoc | woo-tftpd-server/common/tftpsubs.c:207-221 | decoding byte by byte with only the previous byte remembered agrees with a reader that looks ahead |
| Netascii.DecodeKeepsFinalCr | woo-tftpd-server/common/tftpsubs.c:211-213 | if the last byte received was CR, the last byte of the file is CR |
| Netascii.DecodeUnchanged | woo-tftpd-server/common/tftpsubs.c:207-221 | further bytes leave the decoded file as it is exactly when they are the NUL that completes a pair |
| ReadAheads.Reader.constructor | woo-tftpd-server/common/tftpsubs.c:77-93 | a fresh reader has handed out nothing and has the whole stream before it |
| ReadAheads.Reader.NextByte | woo-tftpd-server/common/tftpsubs.c:139-154 | each round of the byte loop delivers the next byte of the encoding, across split pairs |
| ReadAheads.Reader.FillEncoded | woo-tftpd-server/common/tftpsubs.c:137-157 | a filled buffer holds the next segment of the encoding and the rest stays to come |
| ReadAheads.Reader.FillPlain | woo-tftpd-server/common/tftpsubs.c:132-135 | the same for a plain read |
| ReadAheads.Reader.ReadAhead | woo-tftpd-server/common/tftpsubs.c:117-158 | a free next buffer takes the next block; a buffer in use makes the call do nothing |
| ReadAheads.Reader.Prefetch | woo-tftpd-server/tftpd/tftpd.c:1642 | reading ahead never alters the block being sent |
| ReadAheads.Reader.ReadIt | woo-tftpd-server/common/tftpsubs.c:98-111 | successive calls hand out the blocks of the converted file in order |
| ReadAheads.Reader.Outgoing | woo-tftpd-server/tftpd/tftpd.c:1638 | what a retransmission sends is still the block handed out last |
| WriteBehinds.Writer.constructor | woo-tftpd-server/common/tftpsubs.c:72-93 | a fresh writer has received nothing and nothing waits |
| WriteBehinds.Writer.WriteDecoded | woo-tftpd-server/common/tftpsubs.c:209-220 | one byte more keeps the file equal to the decoding of what was written out; a seek back lands on a CR |
| WriteBehinds.Writer.WriteBehind | woo-tftpd-server/common/tftpsubs.c:181-223 | a waiting block goes to the file and its buffer becomes free; otherwise nothing happens |
| WriteBehinds.Writer.Flush | woo-tftpd-server/tftpd/tftpd.c:1765 | one flush makes the file the decoding of everything received |
| WriteBehinds.Writer.Deposit | woo-tftpd-server/tftpd/tftpd.c:1731 | a packet received into the current buffer does not disturb a block that waits |
| WriteBehinds.Writer.WriteIt | woo-tftpd-server/common/tftpsubs.c:164-173 | accepting a block leaves at most that block unwritten |
| MachineRuns.SenderRetransmissionBound | woo-tftpd-server/tftpd/tftpd.c:161-168 | the timer goes off at most 6 times per packet, after doubling waits, and a sender that gives up has waited exactly maxtimeout |
| MachineRuns.ReceiverRetransmissionBound | woo-tftpd-server/tftpd/tftpd.c:1704-1729 | the same for the receiver's timer between accepted blocks |
| MachineRuns.SenderTimerCounts | woo-tftpd-server/tftpd/tftpd.c:1634-1638 | the timer starts afresh with each block and counts the timeouts since, and nothing else |
| MachineRuns.ReceiverTimerCounts | woo-tftpd-server/tftpd/tftpd.c:1705-1725 | the same for the receiver between accepted blocks |
| MachineRuns.SenderLogIsSent | woo-tftpd-server/tftpd/tftpd.c:1638 | the tagged log of a sender lists exactly the packets it sent |
| MachineRuns.DataPhasePackets | woo-tftpd-server/tftpd/tftpd.c:1627-1669 | whatever arrives, every packet of the data phase is the block taken up last, and none is sent because of a packet that brought no progress |
| MachineRuns.SenderSendsBounded | woo-tftpd-server/tftpd/tftpd.c:161-168 | each block, and the OACK on the sender's own account, is sent at most 6 times: once and once per timeout |
| MachineRuns.BlockSentAtMostTries | woo-tftpd-server/tftpd/tftpd.c:1634-1669 | while a block is the one taken up, it and nothing else is sent, at most 6 times in all |
| MachineRuns.ReceiverLogIsSent | woo-tftpd-server/tftpd/tftpd.c:1725 | the tagged log of a receiver lists exactly the packets it sent |
| MachineRuns.ReceiverSendsBounded | woo-tftpd-server/tftpd/tftpd.c:1722-1728 | each acknowledgement is sent at most 6 times apart from answers to repeated blocks |
| MachineRuns.NoSorcerersApprentice | woo-tftpd-server/tftpd/tftpd.c:1643-1669 | DATA packets sent = blocks taken up + timeouts taken, whatever arrives in the data phase (section 4.2.3.1 of RFC 1123) |
| MachineRuns.StableReplies | woo-tftpd-server/tftpd/tftpd.c:1703-1749 | between two accepted blocks every packet the receiver sends is the same one, and an OACK is sent only before the first block |
| MachineRuns.DuplicateAnswered | woo-tftpd-server/tftpd/tftpd.c:1741-1747 | for every rollover value: a repetition of the last accepted block is answered unless its number is 65535; then it is passed over, or accepted if that is the rollover value |
| MachineRuns.FinalWaitAnswers | woo-tftpd-server/tftpd/tftpd.c:1776-1784 | the test after the final wait always passes, so every packet and only a packet is answered with the final ACK; that departs from answering only the last block again exactly on the other packets |
| MachineRuns.ErrorAcknowledged | woo-tftpd-server/tftpd/tftpd.c:1780-1784 | a run after which an ERROR packet is answered with an ACK |
| Timing.RecvTime | woo-tftpd-server/tftpd/tftpd.c:241-293 | interruptions only use up time; the first wake-up that is none decides the result: a packet, a timeout or a failure; the caller's timeout is left at what it leaves of the whole budget |
| Timing.BudgetAfterStrays | woo-tftpd-server/tftpd/tftpd.c:266-269 | after any number of stray packets the budget is max(1, start - total elapsed) |
| Reactions.OpeningPackets | woo-tftpd-server/tftpd/tftpd.c:1591-1638 | the sender opens with its OACK or block 1, the receiver with its OACK or the acknowledgement of 0 |
| Reactions.SenderBreaksOff | woo-tftpd-server/tftpd/tftpd.c:1653-1654 | after an ERROR packet or a failing call a waiting sender has stopped for good and sends nothing more, whatever follows |
| Reactions.ReceiverBreaksOff | woo-tftpd-server/tftpd/tftpd.c:1738-1739 | the same for a receiver that waits for a block; what it accepted stays |
| Reactions.FinalWaitEnds | woo-tftpd-server/tftpd/tftpd.c:1776-1787 | the final wait ends once, with at most one acknowledgement, and then nothing is sent |
| Reactions.SenderOnPacket | woo-tftpd-server/tftpd/tftpd.c:1643-1677 | with a blocks acknowledged only the number of block a + 1 counts: the next block follows, or the end after the last; other packets do nothing |
| Reactions.SenderOnOackReply | woo-tftpd-server/tftpd/tftpd.c:1600-1622 | in the OACK phase number 0 starts the data, other acknowledgements have the buffer repeated, other packets do nothing |
| Reactions.SenderOnTimeout | woo-tftpd-server/tftpd/tftpd.c:161-168 | a timeout repeats what was sent last, five times; the sixth ends the transfer |
| Reactions.ReceiverOnPacket | woo-tftpd-server/tftpd/tftpd.c:1730-1764 | with n blocks accepted, DATA numbered n + 1 is accepted and acknowledged, DATA with the number before it is answered, other packets do nothing |
| Reactions.ReceiverOnTimeout | woo-tftpd-server/tftpd/tftpd.c:1722-1728 | a timeout repeats the acknowledgement, five times; the sixth ends the transfer |
| LossyLink.StepKeepsInv | woo-tftpd-server/tftpd/tftpd.c:1578-1787 | every step of sender, receiver or network keeps the channel and end-point invariant |
| LossyLink.ExpectedBlock | woo-tftpd-server/tftpd/tftpd.c:1740-1743 | a DATA packet with the expected number is the block the receiver lacks |
| LossyLink.ExpectedAck | woo-tftpd-server/tftpd/tftpd.c:1656-1659 | an ACK with the awaited number means that the receiver has the block in flight |
| LossyLink.TransferSafe | woo-tftpd-server/tftpd/tftpd.c:1626-1764 | in every reachable state the accepted blocks are a prefix of the transfer, ahead of the acknowledged ones by at most one, and complete when either side is done |
| RolloverLimit.TransferCompletes | woo-tftpd-server/tftpd/tftpd.c:1626-1764 | a transfer of any length can complete on both sides |
| RolloverLimit.RepeatedAckCounted | woo-tftpd-server/tftpd/tftpd.c:1675-1677 | with rollover value 65535 and more than 65535 blocks a repeated ACK puts the sender ahead of the receiver |
| RolloverLimit.RepeatedBlockAtWrap | woo-tftpd-server/tftpd/tftpd.c:1741-1747 | in every transfer of more than 65535 blocks a repetition of the block numbered 65535 can arrive; it is not answered, and with rollover value 65535 it is accepted as the next block |
| RolloverLimit.SafeExactlyWhenDistinct | woo-tftpd-server/tftpd/tftpd.c:1250-1259 | all runs are safe if and only if the rollover value is below 65535 or there are at most 65535 blocks |
| Progress.CompletesExactlyWhen | woo-tftpd-server/tftpd/tftpd.c:1626-1764 | in every reachable state some continuation completes the transfer if and only if the block or acknowledgement that is missing is in flight, can still be sent on a timeout, or can be asked for by a copy that is answered |
| Progress.HopeCompletes | woo-tftpd-server/tftpd/tftpd.c:1626-1764 | from each such state the transfer can be completed |
| Progress.StepBringsNoHope | woo-tftpd-server/tftpd/tftpd.c:1626-1764 | no step of sender, receiver or network brings that condition about |
| Progress.TriesLeftGiveHope | woo-tftpd-server/tftpd/tftpd.c:161-168 | as long as both ends wait and each has a try left, some continuation completes the transfer |
| Progress.StalledForGood | woo-tftpd-server/tftpd/tftpd.c:1741-1747 | with the block numbered 65535 accepted, no acknowledgement in flight and the receiver's last try under way, no continuation completes the transfer |
| Progress.StallReached | woo-tftpd-server/tftpd/tftpd.c:1741-1747 | every transfer of more than 65535 blocks can get there, with a try of the sender left |
| TransferLoops.SendOack | woo-tftpd-server/tftpd/tftpd.c:1591-1623 | the OACK loop behaves as the machine until number 0 is acknowledged |
| TransferLoops.SendBlock | woo-tftpd-server/tftpd/tftpd.c:1627-1669 | sending, resending and waiting for one block, out of the buffer, behaves as the machine |
| TransferLoops.SendFile | woo-tftpd-server/tftpd/tftpd.c:1578-1683 | the whole send loop on the two-buffer layer ends in the machine's state and has sent the machine's packets, for every course of events |
| TransferLoops.AwaitEvent | woo-tftpd-server/tftpd/tftpd.c:1730-1752 | one round of waiting, with every packet landing in the same buffer, behaves as the machine |
| TransferLoops.AwaitBlock | woo-tftpd-server/tftpd/tftpd.c:1722-1752 | sending the acknowledgement, failing or not, writing behind and waiting for one block behaves as the machine; what has reached the file is known at every exit |
| TransferLoops.LostMeansAborted | woo-tftpd-server/tftpd/tftpd.c:1725-1729 | an accepted block is lost only in a transfer that was broken off, and then it is a full one |
| TransferLoops.SavedExactlyWhen | woo-tftpd-server/tftpd/tftpd.c:1725-1729 | the file on disk is the decoding of all accepted blocks exactly when no first send of an acknowledgement failed, with one exception for blocks of one byte |
| TransferLoops.LossWithoutEffect | woo-tftpd-server/tftpd/tftpd.c:1725-1729 | the exception: the NUL of a pair is lost and the file is the same |
| TransferLoops.AckFailureLosesBlock | woo-tftpd-server/tftpd/tftpd.c:1725-1729 | a course of events in which that happens |
| TransferLoops.RecvFile | woo-tftpd-server/tftpd/tftpd.c:1688-1787 | the whole receive loop, with the header test after the final wait, behaves as the machine; the file is the decoding of the accepted blocks, all of them exactly when no first send of an acknowledgement failed |
| EndToEnd.ConversionRoundTrip | woo-tftpd-server/common/tftpsubs.c:98-223 | converting for the wire and back is the identity in both modes |
| EndToEnd.NextBlock | woo-tftpd-server/tftpd/tftpd.c:1625-1642 | the next block of the stream is handed out, and stays that block through any number of read_ahead calls made while it may be sent again |
| EndToEnd.ReadAll | woo-tftpd-server/common/tftpsubs.c:98-158 | for any number of extra read_ahead calls the blocks read are exactly those of the converted file |
| EndToEnd.WriteAll | woo-tftpd-server/common/tftpsubs.c:164-223 | for any split into blocks and any extra write_behind calls the file is the pure decoding of the stream |
| EndToEnd.Pipe | woo-tftpd-server/common/tftpsubs.c:84-223 | reading and writing back to back rebuilds every file, for every segment size |
| EndToEnd.EndsAreMachines | woo-tftpd-server/tftpd/tftpd.c:1578-1787 | each end of the joined system is its own machine run on what it got to see |
| EndToEnd.FileArrives | woo-tftpd-server/tftpd/tftpd.c:1578-1787 | in every run in which the sender finished or the receiver saw the last block, the accepted blocks decode to the original file and all of them are saved |
| EndToEnd.ServerOpens | woo-tftpd-server/tftpd/tftpd.c:1178-1191 | the server acknowledges options only if it accepted any, as sender of a read and receiver of a write request; else a read starts with block 1 and a write with the acknowledgement of 0 |
| EndToEnd.Transfer | woo-tftpd-server/tftpd/tftpd.c:1578-1787 | both loops, each fed with what reaches it in a run of the joined system, end in the states of that run, and after a completed transfer the original file is on disk |
| EndToEnd.RequestToFile | woo-tftpd-server/tftpd/tftpd.c:1090-1193 | for any encoded request that is not refused, the values the client reads from the bytes of the OACK are the server's, and a file sent completely with them arrives unchanged |
| EndToEnd.Serve | woo-tftpd-server/tftpd/tftpd.c:1090-1193 | the same as code: parser, option code and both loops run one after the other, with each refusal in its place, and leave the original file on disk |
| EndToEnd.ServeMapped | woo-tftpd-server/tftpd/tftpd.c:1090-1193 | the same with the remap engine: the rules map or deny the file name before it is validated |
| Numerals.DecimalRoundTrip | woo-tftpd-server/tftpd/tftpd.c:1338-1346 | printed values read back as themselves |
| Numerals.DecimalDigits | woo-tftpd-server/tftpd/tftpd.c:1353-1356 | numbers are written and read with the most significant digit first |
| Numerals.NumberForms | woo-tftpd-server/tftpd/tftpd.c:1338-1343 | a value is digits that fit 64 bits, with an optional sign and white space before; a minus sign negates; anything else is no value |
| Numerals.PowerTest | woo-tftpd-server/tftpd/tftpd.c:1234 | the bit test tells powers of two from other numbers |
| Numerals.FloorPow2IsLargest | woo-tftpd-server/tftpd/tftpd.c:1235-1239 | no larger power of two is within the request |
| Numerals.ShiftLoop | woo-tftpd-server/tftpd/tftpd.c:1237-1239 | the shift loop computes the largest power of two not above its input |
| Options.PairsRoundTrip | woo-tftpd-server/tftpd/tftpd.c:1110-1172 | encoded option pairs are passed on in order up to the first empty string |
| Options.ApplyInForce | woo-tftpd-server/tftpd/tftpd.c:1200-1310 | an accepted option keeps all values within their limits, and a block size answer is never above the request (RFC 2348) |
| Options.NegotiationInForce | woo-tftpd-server/tftpd/tftpd.c:1322-1365 | after any option list the block size is in [8, max_blksize] and is the one echoed last or 512, maxtimeout is 63 times the basic timeout, and the OACK fits its buffer |
| Options.BothEndsAgree | woo-tftpd-server/tftpd/tftpd.c:1342-1362 | unless refused, exactly the known options with numeric values are acknowledged, in request order, and a client that looks up and reads the echoed pairs arrives at the server's values |
| Options.OackGivesValues | woo-tftpd-server/tftpd/tftpd.c:1353-1362 | the client that parses the bytes of the OACK arrives at the values in force on the server |
| Options.RefusedExactlyWhen | woo-tftpd-server/tftpd/tftpd.c:1344-1360 | a request is refused exactly when some option, in order, is out of range or does not fit the OACK |
| Options.OackRoundTrip | woo-tftpd-server/tftpd/tftpd.c:1345-1364 | the OACK parses back to the accepted names with their final values |
| Options.PowerBlksizeIsPower | woo-tftpd-server/tftpd/tftpd.c:1220-1245 | within the maximum the answer is the largest power of two not above the request; it is a power of two exactly then or if the maximum is one |
| Options.OptionNames | woo-tftpd-server/tftpd/tftpd.c:132-143 | each option is found under its name, and not if it was disabled at start-up |
| Options.CaseIgnored | woo-tftpd-server/tftpd/tftpd.c:1342-1343 | the case of an option name does not matter |
| Options.OptionDispatched | woo-tftpd-server/tftpd/tftpd.c:1338-1362 | an unknown option is ignored; a known one is refused or echoed with the answer of its function, if the OACK has room |
| Options.BlksizeGranted | woo-tftpd-server/tftpd/tftpd.c:1200-1215 | block sizes from 8 to the maximum are granted as asked for, larger ones cut down to the maximum, smaller ones refused (section 2 of RFC 2348) |
| Options.Blksize2Granted | woo-tftpd-server/tftpd/tftpd.c:1220-1245 | the same, with the power of two between half the request and the request |
| Options.TsizeGranted | woo-tftpd-server/tftpd/tftpd.c:1266-1278 | a size of 0 is answered with the file's, another one echoed, if the file's size is known (RFC 2349) |
| Options.TimeoutGranted | woo-tftpd-server/tftpd/tftpd.c:1285-1296 | timeouts are granted exactly from 1 to 255 seconds, with maxtimeout 63 times as long |
| Options.UtimeoutGranted | woo-tftpd-server/tftpd/tftpd.c:1299-1310 | microsecond timeouts are granted exactly from 10000 to 255000000 |
| Options.RolloverGranted | woo-tftpd-server/tftpd/tftpd.c:1250-1259 | rollover values are granted exactly up to 65535 |
| Options.NothingAsked | woo-tftpd-server/tftpd/tftpd.c:86-96 | the defaults: 512 bytes, rollover to 0, and maxtimeout 63 times the server's timeout |
| Requests.Negotiator.constructor | woo-tftpd-server/tftpd/tftpd.c:86-96 | negotiation starts from the defaults with an empty OACK |
| Requests.Negotiator.SetBlksize | woo-tftpd-server/tftpd/tftpd.c:1200-1215 | changes the block size as specified or refuses and changes nothing |
| Requests.Negotiator.SetBlksize2 | woo-tftpd-server/tftpd/tftpd.c:1220-1245 | the same for the power-of-two option, through the bit test and the shift loop |
| Requests.Negotiator.SetOther | woo-tftpd-server/tftpd/tftpd.c:1250-1310 | the same for size, timeouts and rollover value |
| Requests.Negotiator.AppendPair | woo-tftpd-server/tftpd/tftpd.c:1353-1356 | both strings of an echoed option follow what the OACK held before |
| Requests.Negotiator.DoOption | woo-tftpd-server/tftpd/tftpd.c:1322-1365 | one option changes the variables and the buffer as the negotiation function says |
| Requests.RequestRoundTrip | woo-tftpd-server/tftpd/tftpd.c:1090-1172 | an encoded file name, mode and option list is understood as exactly that, whatever the buffer held before |
| Requests.Modes | woo-tftpd-server/tftpd/tftpd.c:1120-1132 | the modes are netascii and octet, in any case, and no other |
| Requests.MalformedRequests | woo-tftpd-server/tftpd/tftpd.c:1110-1178 | missing mode, unknown mode and missing terminator each have their error |
| Requests.CutOffOption | woo-tftpd-server/tftpd/tftpd.c:1110-1172 | an option cut off by the end of the packet counts only if a NUL happens to follow in memory |
| Requests.EmptyStringEnds | woo-tftpd-server/tftpd/tftpd.c:1110-1172 | an empty name or value ends the option list, whatever follows |
| Requests.NegotiateIsFold | woo-tftpd-server/tftpd/tftpd.c:1166-1171 | going through the options from the front is the negotiation of the whole list |
| Requests.WalkOptions | woo-tftpd-server/tftpd/tftpd.c:1166-1172 | the alternating walk calls do_opt on exactly the pairs, in order, until one is refused |
| Requests.HandleRequest | woo-tftpd-server/tftpd/tftpd.c:1090-1193 | each malformed request, denied file name and refused option gets its error, every other request starts a transfer of the mapped name with the values negotiated from its pairs |
| SlotTable.FirstFree | woo-tftpd-server/data.c:149-164 | the search finds the first slot that is not enabled |
| SlotTable.CountUpdate | woo-tftpd-server/data.c:156-162 | what replacing one slot does to the number of enabled slots |
| SlotRuns.AllocationSucceeds | woo-tftpd-server/data.c:140-173 | once the count test passes a free slot is found, and the test fails exactly when all five are enabled |
| SlotRuns.StepKeepsInv | woo-tftpd-gui/application.cxx:104-214 | a step of a server or the GUI, with any clock, keeps the table, owner and wake-up invariants if and only if it does not set END in a slot that is not enabled |
| SlotRuns.OwnersObey | woo-tftpd-server/data.c:338-359 | a server that still owns its slot never does that |
| SlotRuns.ConsistentExactlyWhen | woo-tftpd-gui/application.cxx:188-207 | the inductive invariant holds in all states of a run exactly when no step of it does that |
| SlotRuns.TableConsistent | woo-tftpd-gui/application.cxx:188-207 | in every interleaving the counter equals the number of enabled slots and is at most 5, no two owners share a slot, a pending end time implies an enabled, ended slot, and "No free id found" is never reached |
| SlotRuns.NoLostWakeUp | woo-tftpd-gui/application.cxx:104-138 | while the GUI is going to sleep or sleeps with operations running, the signal is pending or a server is about to send it |
| SlotReclaim.SilentSlotReclaimed | woo-tftpd-gui/application.cxx:143-213 | with a clock that does not run backwards, a silent slot is released after passes at t1, t2 > t1 + 3 and t3 > t2 + end_time, and counted down exactly once, whatever state the rest of the table is in |
| SlotReclaim.EnabledSlotKeepsMonitorRunning | woo-tftpd-gui/application.cxx:104-116 | while a slot is enabled a timer tick starts the monitor |
| SlotLateEnd.LateEndMiscounts | woo-tftpd-server/data.c:338-359 | a run from the start in which a slow server ends its operation after its slot was dropped; afterwards one slot is in use, the counter is 0 and the next tick sends the GUI to sleep |
| SlotLateLimits.LateEndHarmlessExactlyWhen | woo-tftpd-server/data.c:338-359 | from every state in order, ending an operation leaves the counter, owners, end times and allocation right in all that may follow if and only if the slot is still enabled or nobody will notice; the same if only clocks that do not run backwards are considered |
| SlotLateLimits.UnnoticedOutsidePass | woo-tftpd-gui/application.cxx:104-116 | outside a pass, nobody notices exactly for slot 0 while no operation is counted |
| SlotLateLimits.RunKeepsOrder | woo-tftpd-server/data.c:149-164 | an unnoticed leftover stays unnoticed or is cleared by the next operation, in every continuation |
| SlotPrograms.UndisturbedPass | woo-tftpd-gui/application.cxx:143-214 | a pass that nobody disturbs does what the loop computes, in any state |
| SlotPrograms.SharedData.constructor | woo-tftpd-gui/data.cxx:128-134 | the table starts empty |
| SlotPrograms.SharedData.AllocOperation | woo-tftpd-server/data.c:137-178 | the search loop allocates the first free slot, or reports the right error |
| SlotPrograms.Gui.constructor | woo-tftpd-gui/application.cxx:64-66 | the GUI starts without end times |
| SlotPrograms.Gui.MonitorSlot | woo-tftpd-gui/application.cxx:146-213 | the three parts of the loop body, in place on the arrays |
| SlotPrograms.Gui.MonitorOperations | woo-tftpd-gui/application.cxx:143-214 | one pass over all slots |
| SlotMeaning.NewOperation | woo-tftpd-server/data.c:137-178 | a new operation gets the first slot not in use, reset but for its total; with five counted it gets none |
| SlotMeaning.EntryTellsProgress | woo-tftpd-server/data.c:274-333 | in any interleaving the block count of an operation that goes on is the sum of the increments in 32 bits, and its kind flags are set exactly if its server set them |
| SlotMeaning.EndedShown | woo-tftpd-server/data.c:338-359 | an ended upload is shown as complete, a download as far as it came |
| SlotMeaning.TimedOutExactlyWhen | woo-tftpd-gui/application.cxx:150-182 | a live operation is marked as timed out exactly if its count has not changed over looks more than three seconds apart |
| SlotMeaning.ClockSetBack | woo-tftpd-gui/application.cxx:161-177 | a clock that was set back starts the three seconds afresh |
| SlotMeaning.ReleasedExactlyWhen | woo-tftpd-gui/application.cxx:185-207 | an ended operation stays for the delay and is released in the first later pass |
| Substitution.PassesAgree | woo-tftpd-server/tftpd/remap.c:60-150 | the measured length is the length written, for every callback that keeps its contract on the macros of the pattern |
| Substitution.MeasureDeficit | woo-tftpd-server/tftpd/remap.c:119-133 | a callback that breaks its contract for one macro falls short by that macro's deficit once per use |
| Substitution.ServerMacrosKeep | woo-tftpd-server/tftpd/tftpd.c:1376-1412 | the server's callback keeps its contract exactly on the patterns without \x |
| Substitution.ServerMacrosAgree | woo-tftpd-server/tftpd/tftpd.c:1376-1417 | with the server's callback the lengths agree exactly for patterns without \x |
| Substitution.QuoteIsLiteral | woo-tftpd-server/tftpd/remap.c:128-140 | any text can be written as a pattern by doubling backslashes |
| Substitution.WholeMatchIsIdentity | woo-tftpd-server/tftpd/remap.c:84-105 | the pattern \0 puts back what was matched |
| Substitution.MeasureMatchString | woo-tftpd-server/tftpd/remap.c:60-150 | the pass without a buffer computes the measured length |
| Substitution.WriteMatchString | woo-tftpd-server/tftpd/remap.c:60-150 | the pass with a buffer writes prefix, expansion under the running case mapping, suffix and terminator |
| Substitution.SubstituteMatch | woo-tftpd-server/tftpd/remap.c:394-400 | measure, allocate, write yields the substituted string |
| PatternMeaning.UpperCasePattern | woo-tftpd-server/tftpd/remap.c:111-117 | text after \U comes out with a to z in upper case, up to \E |
| PatternMeaning.LowerCasePattern | woo-tftpd-server/tftpd/remap.c:107-117 | text after \L comes out with A to Z in lower case, up to \E |
| PatternMeaning.GroupPattern | woo-tftpd-server/tftpd/remap.c:84-105 | each of \0 to \9 puts exactly the text of its group in its place, or nothing |
| PatternMeaning.GroupInCase | woo-tftpd-server/tftpd/remap.c:97-105 | the text of a group is mapped, too |
| PatternMeaning.MacroPattern | woo-tftpd-server/tftpd/remap.c:119-133 | a macro stands for what the callback writes, an unknown one for its character |
| PatternMeaning.MatchReplaced | woo-tftpd-server/tftpd/remap.c:68-76 | the match is replaced and what is before and after it stays |
| Remap.Evaluate | woo-tftpd-server/tftpd/remap.c:347-428 | one step evaluates at most the rule at hand and then goes on with the next, or with the second on a restart |
| Remap.StepsWithinBudget | woo-tftpd-server/tftpd/remap.c:351-357 | at most the budget of rules is evaluated, all applicable, and only an exhausted budget runs out of steps |
| Remap.AbortsOnlyByRule | woo-tftpd-server/tftpd/remap.c:365-391 | an abort is the work of an applicable abort rule that matched, evaluated last; its message is undefined exactly if the rule is inverted and has one |
| Remap.FirstRuleNotRevisited | woo-tftpd-server/tftpd/remap.c:421-422 | a restart never comes back to the first rule |
| Remap.StraightThrough | woo-tftpd-server/tftpd/remap.c:347-357 | without restart rules the rules are evaluated once in order and a table within the budget never runs out |
| Remap.UnmatchedNameUnchanged | woo-tftpd-server/tftpd/remap.c:347-434 | a name that no applicable rule matches comes out unchanged |
| Remap.ExhaustivelyStops | woo-tftpd-server/tftpd/remap.c:359-410 | a global rule leaves a subject it no longer matches |
| Remap.SingleRuleRunsOnce | woo-tftpd-server/tftpd/remap.c:421-422 | a one-rule table evaluates its rule at most once |
| RuleMeaning.FirstHitAborts | woo-tftpd-server/tftpd/remap.c:365-391 | if the first applicable rule that hits is an abort rule, the outcome is its abort, with its message |
| RuleMeaning.FirstHitRewrites | woo-tftpd-server/tftpd/remap.c:394-428 | otherwise the name becomes what the rule makes of it (nothing, one substitution, or substitutions until it hits no more), and work ends, or goes on with the next rule, or with the second |
| RuleMeaning.NothingHits | woo-tftpd-server/tftpd/remap.c:347-434 | if no rule hits the name stays, unless more rules apply than there are steps |
| RuleMeaning.NameDenied | woo-tftpd-server/tftpd/tftpd.c:1422-1433 | a request whose name first hits an abort rule is denied, by the rules for its own kind |
| RuleMeaning.NameMapped | woo-tftpd-server/tftpd/tftpd.c:1422-1433 | one whose name first hits an exit rule is served under what that rule makes of it |
| RuleMeaning.OtherRulesIgnored | woo-tftpd-server/tftpd/tftpd.c:1422-1433 | rules for the other kind of request do not touch the name |
| Remap.EvaluateRule | woo-tftpd-server/tftpd/remap.c:359-410 | the inner loop rewrites once, or until no match, or aborts with its message |
| Remap.RewriteString | woo-tftpd-server/tftpd/remap.c:328-435 | if each applicable global rule eventually stops matching on the names that can occur, the loops terminate with the interpreter's outcome after evaluating the same rules, at most 1024; no name only by a matching abort rule or an exhausted budget |
| Remap.RewriteAccess | woo-tftpd-server/tftpd/tftpd.c:1422-1433 | with the server's own macros, for rules without \x, the file name is mapped or denied as the rules say |
| PortSearch.PickPortBind | woo-tftpd-server/common/tftpsubs.c:264-300 | from the random start ports are probed in wrap-around order, at most once each, and in-use errors end the search only after the whole range was probed |

## Left out

- Rule file parsing (`readescstring`, `parseline`): easy text splitting; rules enter with the properties that parsing ensures.
- The widgets, settings and layout of the GUI, daemonising, privileges, sockets, address handling, file access policy and locking.
- Lengths below four bytes: packets carry at least a full header.
- TransferLoops.SendOack: represents what is sent again from the shared buffer by the packet that landed there last; bytes of the OACK that survive behind a shorter packet are not modelled.
- Reordering of packets: the channels are FIFO.
- Semaphores and flag updates: a critical section is an atomic step, and so are the three writes of `woo_end_operation` together and each of the three parts of the GUI's loop body, the first of which tests flags, compares block counts and sets two flags.
- TransferLoops.SendFile: assumes that reading the file succeeds, so the error branch after `readit` is not taken.
- TransferLoops.RecvFile: assumes that writing the file succeeds and that no payload exceeds the receive buffer; a failing send is modelled.
- MachineRuns.NoSorcerersApprentice: assumes that no DATA packet is sent to a sender that acknowledges options, because one that lands in the OACK buffer would be sent back; MachineRuns.DataPhasePackets and MachineRuns.BlockSentAtMostTries need no assumption on what arrives.
- LossyLink.TransferSafe: assumes numbers that tell neighbouring blocks apart, which RolloverLimit.SafeExactlyWhenDistinct shows to be necessary.
- Progress.CompletesExactlyWhen: assumes such numbers, too.
- SlotRuns.TableConsistent: assumes that no server ends its operation in a slot that is not enabled any more; SlotLateLimits.LateEndHarmlessExactlyWhen says exactly when that may happen all the same. Any other late write and any clock are covered.
- SlotRuns.NoLostWakeUp: makes the same assumption, and that a server does not die between allocating and signalling.
- SlotReclaim.SilentSlotReclaimed: covers the time until the slot is allocated anew, and assumes a clock that does not run backwards.
- Substitution.SubstituteMatch: assumes the callback contract stated in the header file, which the server's own \x macro breaks.
- Remap.RewriteString: assumes that global rules eventually stop matching, without which the loop does not end.
- Remap.RewriteAccess: assumes rules without \x and without inverted abort rules that have a message, for which the code is not defined.
- SlotLateLimits.LateEndHarmlessExactlyWhen: in the middle of a pass, assumes a delay that is not negative.
- Requests.HandleRequest: takes file name mapping and access validation as functions of the name; EndToEnd.ServeMapped puts the remap engine in place of the first.
- PortSearch.PickPortBind: takes the range as the command line check leaves it, with the lower end not above the upper.
