# A model of the OSDP bus master

The program polls OSDP peripherals on an RS-485 line.  It frames messages, reads replies that
arrive in arbitrary pieces, retries, takes slaves offline and back, moves commands from an MQTT
broker out and replies in.  The project models it in four parts and proves what each is for.

**The link layer.**  `Protocol` holds the reader and the writer as they are: a fixed input buffer
filled and shifted in place, a fixed output buffer written through partial writes, deadlines and
delays on a monotonic clock, the streaming check of frames addressed elsewhere.  `Frame` says what
all of that amounts to as functions of the stream, `Crc16` and `CrcTheory` what the CRC is,
`Clock` what the time arithmetic is, `FrameTheory` what the format guarantees: frames written are
the frames read, damage is refused, nothing beyond a frame is consumed.  `Packets` states the format
in numbers, byte by byte, for what is written and for whatever is read, apart from those functions.
`Stations` puts a writer and a reader on one line.

**Polling.**  `Polling` is the machine one slave goes through, step by step: the statements of
`slave_poll` that touch the slave, with the MQTT thread's pushes and control messages between any
two of them.  `PollingRuns` proves what every run of it keeps, and `Calls` which courses a call can
take.  `ExactlyOnce` adds a peripheral and
a line that loses commands and replies.  `Slaves` and `Master` are the program's objects; every
method is proved to extend a slave's history by steps of the machine, so the laws of all runs hold
of the fields (`Master.Bus.SlaveLaws`).

**Scheduling.**  `Scheduler` is the cyclic cursor; `Master.Bus.Serve` proves its fairness of the
bus thread's own loop while flags flip at any moment.

**Supporting structures.**  `Blobs` is the reference-counted handle class, `BlobRefs` what several
threads may do to its counts at once, `BlobHex` its hex printer and reader, `Split` the splitter
and joiner, `FileSend` the fragmenting uploader of scripts/filesend.py.

Some laws one might expect are not laws of the code, and are stated as what holds instead:

- A command can be acknowledged without being executed: when it is pushed while a plain poll is
  unanswered, for the retry picks its payload afresh but keeps the number
  (`ExactlyOnce.HazardLosesACommand`), and after a NAK, for it is sent again under number 0
  (`ExactlyOnce.NakLosesACommand`).  `ExactlyOnce.ExecutedUnlessSpoiled` says of every play exactly
  which commands are executed, and `ExactlyOnce.NumberedExactlyOnce` that avoiding these two is
  enough.
- The last status published need not be the slave's: a control message other than ENABLE and
  DISABLE publishes the opposite, since `offline()` is passed where `declare_online` expects
  "online", and ENABLE publishes ONLINE for an offline slave (`PollingRuns.ControlsMislead`).
  `PollingRuns.TrueUnlessMisled` says when it is true, in every run.
- join of split loses a final separator (`Split.JoinOfSplit`), and split of join loses a last empty
  part (`Split.SplitOfJoin`).
- Hex printing with a stream width does not read back (`BlobHex.ReadOfPrinted`): the empty
  delimiter takes the width, so the padding goes in front as well as behind.
- A payload of more than 259 bytes can be written but not read back (`FrameTheory.ReadsBack`), and
  a frame announced shorter than its own header and check takes 7 or 6 bytes from the stream when
  let by (`FrameTheory.LetByTakesAtLeast`).
- `write(buffer, size)` sends the output buffer, so the buffer it is given only if the two begin
  alike (`Protocol.Protocol.Write`).

The packet layout is that of section 2.9 of SIA OSDP v2.1, timing and synchronisation those of its
sections 2.7 and 2.8; the generator polynomial is that of section 2 of ITU-T V.41.

## Model

| member | source | states |
|---|---|---|
| Clock.BeforeIsOrder | osdpmaster.cpp:233-236 | the field-by-field comparison agrees with the order of the instants on normalised times |
| Clock.OfNanos | osdpprotocol.cpp:441-441 | a clock reading is normalised and names its instant |
| Clock.PlusCarry | osdpprotocol.cpp:425-428 | adding with one carry gives the exact instant, normalised or not |
| Clock.PlusCarryNormal | osdpslave.cpp:106-111 | one carry leaves a normalised time exactly when the nanoseconds sum to less than two seconds |
| Clock.WaitIsFloor | osdpprotocol.cpp:269-281 | the poll timer is the floor of the milliseconds remaining, and negative exactly when the deadline has passed |
| Bytes.LengthRoundTrip | osdpprotocol.cpp:556-557 | the two length bytes written are read as the length |
| Crc16.AddConcat | crc16.c:11-20 | the CRC of a concatenation is that of successive calls |
| Crc16.AddBytes | crc16.c:11-20 | the loop over a buffer computes the CRC of exactly the bytes it covers, none for a negative length |
| CrcTheory.StepIsEightClocks | crc16.c:14-18 | the shift-and-xor step is eight clocks of the bit-serial register with polynomial 0x1021, high bit first |
| CrcTheory.AddIsSerial | crc16.c:11-20 | crc16_add is the bit-serial register for every start value and length |
| CrcTheory.RegisterDivides | crc16.c:11-20 | the register's feedback bits are a quotient and its state a remainder of the preset message over GF(2) |
| CrcTheory.RemainderUnique | crc16.c:11-20 | no other remainder satisfies the division equation |
| CrcTheory.AddIsTheRemainder | crc16.c:11-20 | crc16_add yields c if and only if c is the remainder of the preset message on division by x^16+x^12+x^5+1 |
| CrcTheory.BurstChangesCrc | crc16.c:14-18 | no error confined to sixteen consecutive bits leaves the CRC as it was |
| CrcTheory.TwoBytesAreABurst | crc16.c:14-18 | one altered byte, or two adjacent ones, is such an error |
| CrcTheory.SerialParity | crc16.c:14-18 | the parity of the register changes by the parity of the bits fed in, the generator being divisible by x + 1 |
| CrcTheory.OddErrorChangesCrc | crc16.c:14-18 | no error of an odd number of bits leaves the CRC as it was |
| CrcTheory.BitsByValue | crc16.c:14-18 | the bits divided are the message's, byte by byte and highest first, and a register's coefficient k is its bit worth 2 to the k |
| Frame.FirstSohSkips | osdpprotocol.cpp:303-331 | bytes without an introducer are skipped, and only those |
| Frame.SumConcat | osdpprotocol.cpp:491-493 | the byte sum of a concatenation is the sum of the sums |
| Frame.TrailerRoundTrip | osdpprotocol.cpp:574-575 | the CRC bytes written are read as the CRC |
| FrameTheory.EncodePasses | osdpprotocol.cpp:570-575 | a frame written passes the reader's check and loses just its two check bytes |
| FrameTheory.EncodedHeader | osdpprotocol.cpp:553-563 | introducer, address, length, control and payload stand where the reader looks for them |
| FrameTheory.ReadsBack | osdpprotocol.cpp:400-505 | a frame behind noise reads back whole exactly when its payload has at most 259 bytes; otherwise the reader reports overflow after the header |
| FrameTheory.ConversationReadsBack | osdpprotocol.cpp:546-585 | any padded frames separated by bytes free of introducers come back from successive reads in order, the stream left just behind the last one read |
| FrameTheory.ConversationEnds | osdpprotocol.cpp:303-334 | after the last frame one more read times out with everything used up |
| FrameTheory.DeliveredFields | osdpprotocol.cpp:555-563 | address, sequence number and payload survive the trip |
| FrameTheory.ReadIsDetermined | osdpprotocol.cpp:439-505 | a read that ends depends on nothing beyond the bytes it uses; one that times out uses them all |
| FrameTheory.KeptFrameIsWhole | osdpprotocol.cpp:407-408 | a successful read leaves at least six bytes, so a byte at the function position |
| FrameTheory.ReadChecks | osdpprotocol.cpp:471-499 | reading a well-formed frame, valid or not, is checking it |
| FrameTheory.DamageIsRefused | osdpprotocol.cpp:477-487 | a burst of up to sixteen bits, or any odd number of wrong bits, in the covered bytes of an accepted frame, sparing introducer, length and control, makes the master's read report a bad CRC |
| FrameTheory.DamageIsRefusedByAll | osdpprotocol.cpp:336-487 | the same damage is refused by every station in frames of every length, let by or kept; one too long to keep is reported as an overflow |
| FrameTheory.BadFrameIsRefused | osdpprotocol.cpp:454-499 | how any station takes a frame whose length is true and whose check fails, and how much of the stream it uses |
| FrameTheory.AlteredByteIsRefusedBySum | osdpprotocol.cpp:491-497 | in a frame with the short checksum, one altered byte, the checksum included, is refused by every station |
| FrameTheory.AlteredBytesAreRefused | osdpprotocol.cpp:477-487 | so does any change of one byte or of two adjacent bytes |
| FrameTheory.SumCatchesOneByte | osdpprotocol.cpp:491-497 | the byte sum tells any two texts apart that differ in one byte |
| FrameTheory.LetByIsWholeCheck | osdpprotocol.cpp:336-398 | letting a frame by succeeds if and only if the whole of it arrives and passes its check, for every announced length from 7 (CRC) or 6 (sum) to 65535, and then exactly the frame is consumed |
| FrameTheory.LetByTakesAtLeast | osdpprotocol.cpp:359-396 | a shorter announcement is not believed: 7 or 6 bytes are taken anyway |
| Packets.WrittenByValue | osdpprotocol.cpp:550-578 | every byte of a frame written, by value: 0x53, the address modulo 128, the length low byte first, the control byte plus 4, the payload, and the CRC preset 0x1D0F low byte first |
| Packets.PaddedByValue | osdpprotocol.cpp:550-578 | as many 0xFF bytes before and after the frame as configured, none for a negative number |
| Packets.SumIsTotal | osdpprotocol.cpp:491-493 | the short checksum is the arithmetic total of the bytes, modulo 256 |
| Packets.CheckByValue | osdpprotocol.cpp:471-499 | a whole frame checks, to its size less 2, if and only if its last two bytes as a number are the CRC of those before them; without the CRC bit, to its size less 1, if and only if its last byte is their total modulo 256; -6 otherwise |
| Packets.NothingByValue | osdpprotocol.cpp:303-334 | a stream without a whole header behind its first 0x53 reads -1 and is used up |
| Packets.KeptByValue | osdpprotocol.cpp:400-505 | what becomes of any stream with a header for this station, in numbers: lengths 6 to 266, results -3, -1, -6 or the size without check bytes, the frame kept and the bytes used |
| Packets.LetByByValue | osdpprotocol.cpp:336-398 | the same of a header for another station: -7, -6 or -1, and at least 7 or 6 bytes used |
| Packets.PollFrame | osdpprotocol.cpp:546-578 | the plain poll of slave 1 under number 0 is 53 01 08 00 04 60 BA 00 |
| Protocol.Line.Read | osdpprotocol.cpp:254-256 | the port delivers some non-empty prefix of what is to come, up to the count asked for |
| Protocol.Line.Write | osdpprotocol.cpp:599-628 | the port takes some non-empty prefix of what it is given |
| Protocol.Protocol.ReadSome | osdpprotocol.cpp:250-301 | bytes go to their place in the buffer and nothing else changes; the timeout comes only when nothing is waiting, strictly after the deadline and at most a millisecond of waiting beyond it; the loop ends |
| Protocol.Protocol.ReadOverHeader | osdpprotocol.cpp:307-310 | the header area is cleared and read, the rest of the buffer untouched |
| Protocol.Protocol.ReadSoh | osdpprotocol.cpp:303-334 | the five header bytes of the first message in the stream are in front, or the stream gave out before |
| Protocol.Protocol.ReadRestOfHeader | osdpprotocol.cpp:316-328 | the introducer is moved to the front in place and the header completed |
| Protocol.Protocol.ReadEof | osdpprotocol.cpp:400-419 | overflow exactly for announced lengths below 6 or above 266, timeout exactly when the stream is shorter, otherwise the whole message |
| Protocol.Protocol.SumBuffer | osdpprotocol.cpp:491-493 | the byte sum of a stretch of the buffer, carried on from an earlier sum |
| Protocol.Protocol.DigestBuffer | osdpprotocol.cpp:368-373 | the stretch in the buffer is folded into whichever check is in use |
| Protocol.Protocol.DigestPast | osdpprotocol.cpp:359-375 | however the stream is cut into buffers, the running check is that of all the bytes passed |
| Protocol.Protocol.MatchCrc | osdpprotocol.cpp:378-388 | the next two bytes decide the fly-by, in however many reads they come |
| Protocol.Protocol.FlyByCrc | osdpprotocol.cpp:348-389 | fly-by with a CRC: result and bytes consumed |
| Protocol.Protocol.FlyBySum | osdpprotocol.cpp:353-396 | fly-by with a byte sum: result and bytes consumed |
| Protocol.Protocol.FlyBy | osdpprotocol.cpp:336-398 | the streaming check refines the check of the whole frame, for every header and every chunking |
| Protocol.Protocol.CheckBuffer | osdpprotocol.cpp:471-499 | the in-place check is the check of the frame: size without check bytes, or a CRC error |
| Protocol.Protocol.ReadStamp | osdpprotocol.cpp:421-429 | the next transmission may start the configured delay after now |
| Protocol.Protocol.SetDeadline | osdpprotocol.cpp:441-448 | the deadline is exactly the timeout after now, normalised, for every non-negative timeout |
| Protocol.Protocol.ReadBody | osdpprotocol.cpp:450-500 | a read refines one function of the stream: code, buffer and bytes consumed, however the reads are split |
| Protocol.Protocol.ReadCook | osdpprotocol.cpp:439-505 | the whole read: refines that function, sets deadline and next-write time exactly, and times out strictly after the deadline and at most a millisecond later |
| Protocol.Protocol.DelayWait | osdpprotocol.cpp:431-437 | waits until the stored time, taking the delay from now when none is stored |
| Protocol.Protocol.Write | osdpprotocol.cpp:592-632 | partial writes add up to exactly the first size bytes of the output buffer, which are those of the buffer named if and only if the two begin alike |
| Protocol.Protocol.PutPad | osdpprotocol.cpp:550-551 | that many idle bytes are appended, none for a negative number |
| Protocol.Protocol.Put | osdpprotocol.cpp:560-563 | bytes are appended and what was there stays |
| Protocol.Protocol.PutHeader | osdpprotocol.cpp:553-558 | the five header bytes are appended |
| Protocol.Protocol.Build | osdpprotocol.cpp:546-578 | the output buffer holds the padded frame |
| Protocol.Protocol.WriteCook | osdpprotocol.cpp:546-585 | the line gains exactly the padded frame, not before the time allowed |
| Stations.Talk | osdpprotocol.cpp:546-632 | a run of writes amid other traffic puts the whole conversation on the line |
| Stations.Listen | osdpprotocol.cpp:439-505 | a run of reads shows, call by call, what the stream determines |
| Stations.EndToEnd | osdpprotocol.cpp:439-632 | any messages of up to 259 bytes, written in any pieces, amid any bytes free of introducers, and read in any pieces: the reads return exactly their addresses, numbers and payloads in order, then time out |
| Polling.NextQueue | sync_queue.h:36-53 | a push appends, a purge or pop removes the head, nothing else touches the queue |
| Polling.NextRetry | osdpslave.cpp:88-113 | only an accepted reply or, online, a failed read changes the retry counter |
| Polling.NextNumber | osdpslave.cpp:88-94 | only an accepted reply or a NAK changes the number |
| Polling.NextStatuses | osdpslave.cpp:124-138 | control messages apart, a status is published exactly when the offline state changes, and names the new state |
| Polling.NextTimes | osdpmaster.cpp:229-241 | when the two stored times change, and to what; an offline slave is polled exactly when its time has come |
| Polling.ControlStatuses | osdpmaster.cpp:349-362 | a control message sets the flag if it is ENABLE or DISABLE, publishes exactly one status and changes nothing else |
| PollingRuns.QueueConserved | sync_queue.h:36-53 | in every run the messages pushed are the messages removed, in order, followed by the queue |
| PollingRuns.PlaceHolds | osdpmaster.cpp:223-313 | what the place in slave_poll implies about queue, number and the call so far, with MQTT steps anywhere between |
| PollingRuns.RemovalsAreEarned | osdpmaster.cpp:223-313 | each removal is a purge while offline, or the pop of precisely the bytes sent in that call and just accepted |
| PollingRuns.RetryCounts | osdpslave.cpp:88-113 | the retry counter is 11 until the first accepted reply and then min(10, failed reads since the last) |
| PollingRuns.OfflineMeans | osdpslave.h:65-65 | offline means never accepted, or ten failed reads since |
| PollingRuns.StatusesAlternate | osdpslave.cpp:88-103 | without control messages the statuses alternate from the birth OFFLINE and the last agrees with offline() |
| PollingRuns.TruthStep | osdpmaster.cpp:349-362 | what each step does to the truth of the last status published |
| PollingRuns.TrueUnlessMisled | osdpmaster.cpp:349-362 | in every run, control messages included, the last status published is true if and only if neither an unknown command to an enabled slave nor ENABLE to an offline one has come since the last other control message or change of state |
| PollingRuns.ControlsMislead | osdpmaster.cpp:349-362 | both kinds of command make a slave publish ONLINE while it is offline, in runs that happen |
| PollingRuns.EnabledUnlessSwitchedOff | osdpmaster.cpp:354-362 | in every run a slave is enabled unless the last ENABLE or DISABLE was DISABLE |
| PollingRuns.SwitchedOffIsLeftAlone | osdpmaster.cpp:220-221 | while it is switched off no command joins its queue and no call of slave_poll begins on it |
| PollingRuns.SequenceInv | osdpslave.h:17-17 | the number stays in 0..3 and follows the last accepted one, or is 0 |
| PollingRuns.SequenceChanges | osdpmaster.cpp:303-311 | the number changes only on an accepted reply or a NAK |
| PollingRuns.NeighboursDiffer | osdpslave.cpp:88-94 | two polls accepted in a row never carry the same nonzero number |
| PollingRuns.NumbersCycle | osdpslave.h:17-17 | without NAK replies the accepted numbers are exactly 0, 1, 2, 3, 1, 2, 3, ... |
| PollingRuns.CommandsNumbered | osdpmaster.cpp:239-271 | without NAK replies no queued command is ever sent under number 0 |
| PollingRuns.TickleTimes | osdpmaster.cpp:238-241 | the stored time is normalised and five seconds after the last offline poll |
| PollingRuns.RetryTimes | osdpslave.cpp:105-112 | while retrying online, the stored time is normalised and ten milliseconds after the last failure |
| PollingRuns.OfflinePollsApart | osdpmaster.cpp:229-241 | offline polls of one slave are five seconds apart each, even across an online spell |
| PollingRuns.RetryGoesAhead | osdpmaster.cpp:248-256 | in every run a retry goes ahead if and only if the clock is at least ten milliseconds past its reading at the last failure |
| PollingRuns.TickleGoesAhead | osdpmaster.cpp:229-241 | in every run an offline slave is polled if and only if it never was polled offline or the clock is at least five seconds past the last time |
| PollingRuns.RetriesBackOff | osdpmaster.cpp:249-256 | a retry goes ahead no sooner than ten milliseconds after the clock reading of the last failure |
| PollingRuns.RetryTimeWritten | osdpslave.h:25-25 | the retry time, which no constructor sets, is always written before it is read |
| Calls.CallsAreWhole | osdpmaster.cpp:217-340 | every finished call has one of four courses: purged and too early, failed and too early, or a lead, one transmission, one answer, and a pop of what was sent exactly if a command was sent and accepted |
| Calls.SentInTurn | osdpmaster.cpp:223-271 | what precedes a transmission, by the replies so far: a purge and a look at the clock and a plain poll when offline, a look ten milliseconds late at least after failures, nothing otherwise |
| Calls.WhatIsChosen | osdpmaster.cpp:224-271 | a purge ends with the queue empty, and online the head of the queue is sent if there is one, else the byte 0x60 |
| ExactlyOnce.MasterRuns | osdpmaster.cpp:223-339 | the master's side of every play with a peripheral is a run of the polling machine |
| ExactlyOnce.RunsArePlayed | osdpmaster.cpp:223-339 | every run of the polling machine can be played, whatever becomes of its polls on the line |
| ExactlyOnce.EveryRunHasAPlay | osdpmaster.cpp:223-339 | there is a play of every run |
| ExactlyOnce.PlayCounts | osdpmaster.cpp:223-339 | a play counts the pushes and removals of the master's run |
| ExactlyOnce.InvHolds | osdpslave.cpp:67-94 | what master and peripheral jointly know of the head of the queue, after every play, NAK replies included |
| ExactlyOnce.ExecutedUnlessSpoiled | osdpmaster.cpp:259-313 | in every play, NAK replies included, commands are executed in push order and at most once; an acknowledged one was executed exactly once if and only if it was never sent before its execution under number 0 or the number last used |
| ExactlyOnce.CarefulIsClean | osdpmaster.cpp:259-271 | with no push into an empty queue while a plain poll to an online slave is unanswered, and no command sent under number 0, that never happens |
| ExactlyOnce.NumberedExactlyOnce | osdpmaster.cpp:223-313 | under those two conditions, which the master can check: for every pattern of losses and replies, from any state of the peripheral, each acknowledged command is executed exactly once, each purged one at most once, all in push order |
| ExactlyOnce.NakFreeIsNumbered | osdpmaster.cpp:303-311 | where no reply is a NAK, no command is sent under number 0 |
| ExactlyOnce.ExactlyOnce | osdpmaster.cpp:223-313 | so with no NAK and the care about pushes, exactly once holds for every pattern of losses, from any state of the peripheral |
| ExactlyOnce.HazardLosesACommand | osdpmaster.cpp:259-271 | a play without that care in which a command is acknowledged and never executed |
| ExactlyOnce.NakLosesACommand | osdpmaster.cpp:303-311 | a play with a NAK, its pushes careful, in which a command is sent under number 0, acknowledged and never executed |
| Scheduler.SelectedInTime | osdpmaster.cpp:202-221 | a slave that stays eligible is selected within as many calls as there are slaves, whatever the others do |
| Scheduler.InEveryWindow | osdpmaster.cpp:202-221 | the same in every stretch of a run of calls |
| Scheduler.TurnIsNext | osdpmaster.cpp:207-217 | with fixed flags a call selects the next eligible slave round the list, or stays |
| Scheduler.TurnsFollowTheRound | osdpmaster.cpp:207-217 | with fixed flags successive calls follow the list |
| Scheduler.EachOnceARound | osdpmaster.cpp:207-217 | with E eligible slaves any E calls in a row select each exactly once and nobody else |
| Scheduler.FixedIsFair | osdpmaster.cpp:207-217 | the same of a run of calls in which nobody else is ever seen eligible |
| Slaves.InterleavedKeeps | osdpmaster.cpp:345-373 | MQTT steps append to the queue, flip the flag and publish, and leave all else of a slave and the call in progress alone |
| Slaves.OsdpSlave.constructor | osdpslave.cpp:33-65 | a new slave's fields are those of the machine at birth, OFFLINE published |
| Slaves.OsdpSlave.DeclareOnline | osdpslave.cpp:124-149 | publishes DISABLED, ONLINE or OFFLINE |
| Slaves.OsdpSlave.Ack | osdpslave.cpp:88-94 | the new state is that of the machine's accepted reply |
| Slaves.OsdpSlave.Nak | osdpslave.cpp:96-113 | the new state is that of the machine's failed read at the present clock |
| Slaves.OsdpSlave.Push | osdpslave.h:41-43 | the message goes to the back |
| Slaves.OsdpSlave.Pop | osdpslave.h:54-56 | the front message goes |
| Master.ReplyByValue | osdpmaster.cpp:274-311 | how whatever bytes arrive are taken: failed, stray exactly when the address modulo 128 is not the slave's, else NAK at 0x41, BUSY at 0x79, accepted otherwise |
| Master.ReplyFlagIsIgnored | osdpmaster.cpp:279-279 | for a slave address of at most 0x7F a good reply is taken if and only if it carries that address or that address plus 128 |
| Master.Bus.AddSlave | osdpmaster.cpp:66-76 | the list gains a slave at rest at its end and the cursor returns to the start |
| Master.Bus.MessageForSlave | osdpmaster.cpp:341-374 | the slave's history gains exactly the push or control the message stands for; a disabled slave takes no commands; the flag and the queue afterwards |
| Master.Bus.DeliveryByValue | osdpmaster.cpp:341-374 | a command to an enabled slave lengthens what was ever pushed by exactly its payload, and ENABLE and DISABLE alone change the last switch |
| Master.Bus.MessageCallback | osdpmaster.cpp:376-400 | the first slave whose address is the message's gets it, its queue growing by exactly the payload if it is enabled, and no other queue or flag changes |
| Master.Bus.Mqtt | osdpmaster.cpp:376-400 | the MQTT thread may deliver any number of waiting messages, in order, at any point |
| Master.Bus.Select | osdpmaster.cpp:204-217 | the search ends; it never passes a slave eligible throughout, and stops at one seen eligible or where it began |
| Master.Bus.Look | osdpmaster.cpp:207-215 | messages are delivered, and then the next slave is looked at |
| Master.Bus.Meantime | osdpmaster.cpp:213-220 | messages delivered between the search and the second look leave whose turn it is as it was |
| Master.Bus.PurgeSlave | osdpslave.cpp:49-52 | the queue is seen empty, though messages may arrive while it is emptied |
| Master.Bus.OfflineBranch | osdpmaster.cpp:223-246 | after the purge a plain poll is due, or it is less than five seconds since the last offline poll |
| Master.Bus.RetryDue | osdpmaster.cpp:248-257 | a retry is due, or it is less than ten milliseconds since the last failure; the time compared with has been written |
| Master.Bus.OnlineBranch | osdpmaster.cpp:247-272 | the head of the queue is chosen if there is one, else a plain poll |
| Master.Bus.SendPayload | osdpmaster.cpp:259-271 | the line gains the padded frame of the payload under the slave's address and number |
| Master.Bus.Transact | osdpmaster.cpp:259-274 | stale input is dropped, one frame goes out, and the read is that of the bytes that arrived since |
| Master.Bus.HandleReply | osdpmaster.cpp:274-339 | the steps added to the call are those the bytes that arrived decide, and the two counters count exactly the bad checks and the timeouts |
| Master.Bus.Acknowledge | osdpmaster.cpp:311-313 | an accepted reply moves the number on and pops the command sent, messages arriving meanwhile or not |
| Master.Bus.Prepare | osdpmaster.cpp:217-272 | a slave not pollable is left alone; otherwise the call begins and a payload is due or it is too early |
| Master.Bus.SlavePoll | osdpmaster.cpp:202-340 | one call over the whole list, MQTT deliveries anywhere: whose turn it is, that the others see MQTT steps only, that an eligible slave is polled with exactly one frame and its reply decides the rest, and why a call sends nothing |
| Master.Bus.SlaveLaws | osdpmaster.cpp:202-340 | at every moment of the bus thread every slave's queue, retry counter, number, flag and statuses, and between calls its last call, are what the laws of all runs say of its history |
| Master.Bus.ServedExactlyOnce | osdpmaster.cpp:202-340 | the exactly-once law of every slave on the bus, for every play of its history |
| Master.Bus.ServeOne | osdpmaster.cpp:119-131 | one more call keeps who is eligible throughout and who has been seen eligible in step |
| Master.Bus.Serve | osdpmaster.cpp:119-131 | over any number of calls: no slave that stays eligible is starved in any window of as many calls as there are slaves; and when nobody else is ever eligible each is selected exactly once per round |
| BlobRefs.InvKept | blob.cpp:106-126 | every step of every thread keeps the books |
| BlobRefs.BooksBalance | blob.cpp:42-63 | in every interleaving each count is handles installed, plus references taken and not yet stored, minus those released and not yet overwritten; no step touches a container not in memory |
| BlobRefs.NothingDangles | blob.cpp:58-63 | no live handle and no reference taken points at a freed container |
| BlobRefs.FreedOnceAtZero | blob.cpp:47-51 | a container is freed once, at count zero, with no reference left, by the one thread that saw the zero |
| BlobRefs.NothingLeaks | blob.cpp:47-51 | with all threads idle the containers in memory are exactly those a handle points at, and the rest have been freed |
| BlobRefs.SelfAssignment | blob.cpp:112-126 | assigning a handle to itself never frees its container on the way |
| BlobRefs.NobodyIsStuck | blob.cpp:106-126 | a thread amid an operation can always take its next step |
| BlobRefs.OthersKeepOff | blob.cpp:12-17 | the handles a thread works on, and the reference it has taken, are left alone by the others |
| BlobRefs.JobEnds | blob.cpp:106-126 | an operation leaves its handle made, emptied or gone as it should, its thread idle and the counts alone |
| BlobRefs.BothShare | blob.cpp:58-63 | a copy or an assignment ends with both handles on the container the source had |
| Blobs.BlobData.Unref | blob.cpp:47-51 | the count falls and the container goes exactly when it reaches zero |
| Blobs.Blob.Copy | blob.cpp:58-63 | one reference more on the source's container, content untouched |
| Blobs.Blob.Assign | blob.cpp:112-126 | both handles on the source's container, the old one released; a handle assigned to itself keeps its container |
| Blobs.Blob.Clear | blob.cpp:237-243 | this handle lets go, other users' copies are not touched |
| Blobs.Blob.Update | blob.cpp:138-144 | the container to write to, a new empty one for a null handle |
| Blobs.Blob.Clone | blob.cpp:180-191 | the same content in a container of its own, null for null |
| Blobs.AssignAmong | blob.cpp:112-126 | among any handles every count stays the number of handles, and a container is freed exactly when its last handle moves elsewhere |
| Blobs.ClearAmong | blob.cpp:106-110 | the same when a handle is cleared or destroyed |
| Blobs.CopyAmong | blob.cpp:58-63 | the same when a handle is copied |
| BlobHex.Istream.Get | blob.cpp:260-262 | the next character, or failure at the end |
| BlobHex.PrintOctets | blob.cpp:219-224 | two digits an octet; the empty delimiter takes the width first |
| BlobHex.Print | blob.cpp:211-233 | the whole text for every content and width, fill restored and width reset |
| BlobHex.ReadOctet | blob.cpp:258-288 | one round of the reader: a pair of digits, or the end of the digits with the character after them put back |
| BlobHex.Read | blob.cpp:251-292 | the octets of the run of digits, an odd one used up and lost; the stream left behind the digits, failed exactly at the end |
| BlobHex.DigitsByTable | blob.cpp:267-270 | a character is a hex digit of value v exactly if it is number v of 0123456789ABCDEF or of 0123456789abcdef |
| BlobHex.HexByTable | blob.cpp:219-224 | octet x is printed as digit x / 16 and then digit x % 16 of 0123456789ABCDEF |
| BlobHex.UnhexByTable | blob.cpp:264-287 | octet i read is sixteen times the value of its first digit and that of its second, capital or small |
| BlobHex.PrintedByValue | blob.cpp:211-233 | how many zeros a width puts before and behind the digits, and how many in place of none |
| BlobHex.ReadOfPrinted | blob.cpp:211-292 | reading back what was printed gives an equal blob if and only if the width was at most zero, or one and all octets zero |
| BlobHex.PrintedOfRead | blob.cpp:251-292 | printing what was read gives the digits in upper case, less an odd last one |
| Split.SplitInto | split.h:9-27 | the loop appends exactly the pieces, for every count, zero and negative ones included |
| Split.Join | split.h:29-38 | the loop puts a separator before every part but the first |
| Split.PartAt | split.h:29-38 | every part stands in what is joined behind those before it and a separator for each, with one separator after it unless it is the last |
| Split.EdgeCases | split.h:13-25 | only the empty string gives no pieces, and a negative count gives the whole string as one |
| Split.JoinOfSplit | split.h:9-38 | join of split is the string, less one final separator exactly when the string ends in one and every separator was cut at |
| Split.SplitOfJoin | split.h:9-38 | split of join is the list if and only if no part holds the separator and the last part, if any, is not empty |
| Split.CountLimits | split.h:13-25 | with a positive count: at most count + 1 pieces, and only the last of that many may hold separators |
| FileSend.Uploader.Publish | scripts/filesend.py:72-84 | the record published is the fragment due, cut short at the end of the image; an image of 4 GiB or more cannot be packed |
| FileSend.Uploader.SendFragment | scripts/filesend.py:63-93 | repeated until answered: what is published, and how the attempt ends |
| FileSend.Uploader.Advance | scripts/filesend.py:95-117 | the offset moves to the next fragment; status 2 ends the upload |
| FileSend.Uploader.Run | scripts/filesend.py:52-121 | the nested loops refine an upload described by statuses alone, and end when the world's script does |
| FileSend.SentInTurn | scripts/filesend.py:62-95 | each record is the fragment due by the number of statuses before it |
| FileSend.RecordByValue | scripts/filesend.py:72-84 | the ith record carries the hundred bytes behind a hundred for each status before it, or what there is of them |
| FileSend.UploadEnds | scripts/filesend.py:59-121 | how and when an upload ends, by the turns alone: at the first moment that the image is acknowledged and a status 2 has come, or before that at a malformed status or a silence behind the end of the image, or when the turns give out |
| FileSend.TooLongToSend | scripts/filesend.py:76-81 | an image of 2^32 bytes or more sends nothing and raises as soon as the slave is online |
| FileSend.RetryOrAdvance | scripts/filesend.py:86-95 | an unanswered record is published again byte for byte, an answered one is followed by its neighbour |
| FileSend.AllHonest | scripts/filesend.py:72-81 | every record lies inside the image, has at most 100 bytes and carries the image's own |
| FileSend.StoredAt | scripts/filesend.py:76-81 | records stored in any order and any number of times leave the image wherever they reach |
| FileSend.UploadRebuilds | scripts/filesend.py:59-117 | whenever run returns, the published records rebuild the image from any file of its size, in any order and with any repeats |
| FileSend.FinishedWhenTold | scripts/filesend.py:62-117 | run returns only after a status 2 and with the whole image acknowledged |

## Left out

- Opening and configuring the port, RS-485 and termios settings, port switching and the reopen loop of `run`: operating-system plumbing.
- Mosquitto, log4cpp, the ini file, `main`, topic parsing: library calls. A message from the broker enters the model with its topic already picked apart.
- The payload published for an accepted reply (osdpmaster.cpp:315-328): only the effect of the reply on the slave is modelled.
- Read and write errors of the port (exceptions), `EINTR`, reads and writes of zero bytes: a read delivers at least one byte whenever bytes are waiting, and a stream is finite.
- `waitidle`, `sync_queue::wait` and `timespec +=`: off the polling path, and not exact conversions as written.
- `m_rxseq`, `welcome`, `retire`, `resend`, `id_slave`, UUIDs: of no effect on the run. A slave is defined when its address is not 0xFF.
- The bus-wide queue and `mem_zero`, the decoder and the smaller MQTT scripts: easy or print-only members.
- Integer widths of counters and of the retry counter (which never exceeds 11); the sequence number keeps its eight bits. String and container lengths stay below 2^31, so `int` positions in split.h and blob.cpp do not wrap.
- Protocol.Protocol.Build: requires that lead, payload, seven bytes and trail fit the 271 bytes of the output buffer, because writecook does not check it; Protocol.Protocol.WriteCook and the Bus inherit this, for the messages waiting to be delivered as well.
- Protocol.Protocol.ReadBody: a poll with nothing arriving lasts exactly its timer and bytes that arrive are there before the read starts, so bytes arriving during a wait are modelled only as present from the start.
- Master.Bus.SlavePoll: the MQTT thread runs before each look at a flag and between the statements of slave_poll and of purge, but not inside ack, nak, pop or the selection's single test. The bus is at address 0xFF and its line is otherwise arbitrary: whatever bytes arrive after a transmission are what the read sees.
- Master.Bus.SlavePoll: requires at least one slave, as slave_poll does.
- ExactlyOnce.NumberedExactlyOnce: no command is pushed into an empty queue while a plain poll to an online slave is unanswered, and none is sent under number 0. Neither can be dropped (ExactlyOnce.HazardLosesACommand, ExactlyOnce.NakLosesACommand), but a play may break one and lose nothing: that depends on what the peripheral last saw, and ExactlyOnce.ExecutedUnlessSpoiled is the exact law.
- ExactlyOnce: the peripheral follows the comment at osdpslave.cpp:67-86 and remembers number 0 as the last one seen; a busy peripheral, or one that answers NAK, neither executes nor remembers. Flushing before each poll means a reply belongs to the poll it follows.
- BlobRefs.BooksBalance: handles, containers and threads are maps in one value rather than objects, so that the steps of several threads can interleave; increment and decrement-and-test are atomic. The objects themselves are in Blobs, for one thread. `operator==`, `str` and the other plain queries are left out.
- BlobHex.Print: the stream adjusts to the right and shows no base, as by default; digits are those of the C locale.
- FileSend.Uploader.Run: each pass of the inner loop meets one event of a finite script (offline, no answer, a status, a malformed status); sleeping and printing are left out.
- Split: a one-character separator, the only kind the program uses.
