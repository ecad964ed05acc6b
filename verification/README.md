# SCHC over Sigfox: a verified model of ACK-on-Error fragmentation

The repository fragments SCHC packets for the Sigfox network: the F/R procedure and the
ACK-on-Error mode of section 8.4.3 of RFC 8724, the Compound ACK of section 3 of RFC 9441,
and the three uplink profiles of section 3.5.1 of RFC 9442. This project models its codecs,
its sender and its receiver session in Dafny and proves what they keep, alone and together.

## What is modelled

| file | source | content |
|---|---|---|
| `Bits.dfy` | `utils/casting.c` | bit strings, integers and bytes; the loops are methods proved against recursive functions |
| `Rules.dfy` | `entities/rule.c` | a rule as a value, the three profiles, `WellFormed`, recovery of a rule from a message |
| `Fragments.dfy` | `messages/fragment.c` | generating and classifying fragments |
| `FrProcedure.dfy` | `entities/fr_procedure.c` | fragmentation and reassembly over arrays |
| `WireFormat.dfy` | several | what is generated and what is read, as bytes: every number on the wire for each of the three profiles |
| `Queues.dfy` | `entities/fifo_queue.c` | the ring buffer as a class, and the bounded sequence it refines |
| `Acks.dfy`, `AckProofs.dfy`, `AckFormat.dfy` | `messages/ack.c` | writing, reading and classifying Compound ACKs; the place of every bit, and what any eight bytes are taken for |
| `SenderModel.dfy` | `entities/schc_sender.c` | the sender as a state machine; one step is one iteration of the loop of `sender_start` |
| `SenderImpl.dfy` | `entities/schc_sender.c` | the sender as a class over two ring buffers and an array, proved equal to the state machine |
| `SenderQueues.dfy`, `SenderInvariant.dfy` | | what `update_queues` collects; the invariant of the loop |
| `SenderRuns.dfy`, `AnyAcks.dfy`, `Exits.dfy`, `SenderTermination.dfy`, `SenderSilence.dfy`, `SenderTrace.dfy` | | whole runs: safety, capacity, outcomes, exits, ACKs in any order, termination, silence, order of sends |
| `SessionModel.dfy`, `SessionImpl.dfy`, `SessionProofs.dfy` | `entities/schc_session.c` | the receiver session as a value and as a class; arrival order and bitmap check |
| `Delivery.dfy` | `sockets/sigfox_socket.c` | which generated ACKs reach the sender |
| `Repair.dfy`, `Progress.dfy`, `Stored.dfy`, `LiveSessions.dfy`, `Agreement.dfy` | several | one report from the bitmap to the sender's queues; rounds; what the receiver then stores; when the sender gives up |
| `Conversation.dfy`, `FirstPasses.dfy`, `Transfers.dfy`, `Outcomes.dfy` | several | the two ends composed: one report, the first pass, rounds, whole transfers and how they end |
| `LossyRounds.dfy`, `Endings.dfy` | several | rounds and transfers that lose reports and retransmissions; the endings nobody asks for |
| `Failures.dfy`, `StuckRuns.dfy`, `Unheard.dfy` | several | the inputs on which a promise fails |

Everything is stated for any rule that satisfies `Rules.Rule.WellFormed`; the three branches
of `init_rule` satisfy it (`Rules.InitRuleIsProfile`).

**Values and references.** A bit string is a sequence of booleans, a message a sequence of
bytes. A queue element of the sender is a reference, `Frg(i)` into the fragment array or
`AbortSlot` to the `sender_abort` field, so that overwriting an All-1 by a Sender-Abort while
it is queued behaves as in the source. `n` is the number of fragments of the packet.

**Environment.** Each iteration of the sender's loop is given an event: the read timed out, or a
datagram arrived (any bytes; a lost one is an empty one). The event matters only when the
iteration listens. A buffer of eight zero bytes counts as nothing received, as in
`sockets/sigfox_socket.c:70-72` (`SenderModel.DeliversExactly`). Safety and termination of whole
runs, and the class that refines them, assume one thing, of the ACKs whose tuples `update_queues`
works through: what the retransmission queue takes of them points into the fragment array (`AckInside`, `AcksInside`).
It holds of windows of the packet in any order and any number (`AnyAcks.PacketWindowsInside`),
and without it the run is stuck (`AnyAcks.OutsideSticks`). The theorems about the order of the
queues and the log assume of these ACKs that their windows increase, as `generate_ack` makes
them, and none is after the packet's last (`AckSafe`, `AcksSafe`; `SenderRuns.PlainAcksSafe`
gives a sufficient condition on the ACKs alone). Those about result codes and exits (`Exits`)
assume nothing of any ACK. Nothing is assumed of a Receiver-Abort, of an ACK whose last window
is after the fragment's, which `update_queues` ignores, or of what arrives when nobody listens.

**Form.** The code that works in place is modelled in place: `FIFOQueue`, `SCHCSender` and
`SCHCSession` are classes whose methods state their whole new state through `Contents` or
`Model()`, and the loops of the codecs fill arrays. The theorems are about the functions
these methods are proved to compute.

## What the proofs bring out

- **Option 1's Sender-Abort reads as an All-1.** It is exactly as long as the All-1 header, so
  the strict comparison in `is_frg_sender_abort` rejects it and `is_frg_all_1` accepts it
  (`Fragments.AbortClass`, an equivalence). A silent run ends after n + MAX_ACK_REQUESTS sends for
  the other two profiles and never for this one.
- **Option 1 packs four tuples and reads three** (`AckProofs.Capacities`).
- **Rule recovery.** Exact for single byte and option 1 on any message. For option 2
  `init_rule` converts the whole message with `strtol`. On fewer than 64 bits recovery is exact
  if and only if the last two bits of the message repeat those of the identifier; from 64 bits
  on the conversion saturates, so that the rule found is always the one with id 18, whatever the
  message ends with. Every ACK is of the second kind, and so is every fragment of 64 bits or
  more (`Rules.RecoverOption2`, `Rules.RecoverLong`, `AckProofs.RuleOfAck`).
- **An invisible loss report.** A report can be eight zero bytes, which the socket layer drops:
  exactly when the rule identifier is all '0', only window 0 is reported and none of it has
  arrived. On a channel that loses no retransmission, rounds of report and retransmissions deliver
  the packet's bytes if and only if nothing was missing or the first report is visible
  (`Stored.ProgressDelivers`); `Failures.FourteenFragmentsInvisible` is an input for which they
  never do, and `Unheard.FourteenFragmentsUnheard` is the sender's run on it: no All-1 counts as
  answered, and it gives up. A channel that loses some can make a visible report invisible for good
  (`LossyRounds.LossSilences`).
- **A pointer past the fragment array.** `update_queues` compares only the last tuple's window
  with the fragment's, so that an ACK whose windows do not increase can name a window after the
  packet's last and still be worked through; the sender then follows a pointer past the end of
  its array. For a rule whose Sender-Abort can be told from an All-1 some ACK does that if and
  only if the packet has a window before its last, the numbering has one after it, and an ACK
  holds two tuples; for option 1 if and only if the numbering has a window after the packet's
  last (`StuckRuns.OutsidePossible`). `StuckRuns.EightFragmentsStick` is such an input: single
  byte, eight fragments, an ACK that names windows 3 and 1.
- **Giving up on what has arrived.** `get_bitmap_to_retransmit` looks at the positions before
  the All-1, `session_check_bitmaps` at the whole last window. A sender that reads a report of
  the last window in which no data is missing answers it with a Sender-Abort. For a live session,
  one in which the All-1 and any of the other fragments have arrived, it does so exactly when
  that window is among those it sees and has all its data, the packet does not fill it and the
  All-1 is not alone in it (`LiveSessions.GivesUpExactly`). So a transfer of such a packet, with
  every report and every retransmission delivered, ends with SENDER_ABORTED although the
  receiver's array gives back the packet (`Outcomes.TransferAborts`); under option 1 it does not
  even end (`Endings.TransferGoesOn`).
- **The silent exit.** `sender_start` can leave its loop with both queues empty and return 0,
  a result its header does not announce. It does so exactly when an ACK to the last queued All-1
  names a window after that All-1's own, because `update_queues` then returns before it queues
  the All-1 again. Some run does so if and only if the numbering has a window after the
  packet's last (`Failures.SilentExitPossible`).
- **A received packet is never acknowledged as complete.** `session_update_bitmap` marks the
  All-1 right after the last data fragment, `session_check_bitmaps` expects it at the end of
  the window, and blanking loss-free windows makes `generate_ack` refuse the complete ACK.
  `Agreement.FullReception` gives the exact outcome in the three cases that arise. A packet that
  fills its last window is not answered any more, and the sender gives up
  (`Endings.TransferUnanswered`); one whose All-1 is alone in its window makes the two ends
  exchange the All-1 and the same report for ever (`Outcomes.NeverAcknowledged`,
  `Endings.EightFragmentsEndless`); in the third case the sender gives up as above. No run whose
  ACKs come from sessions returns COMPLETED (`Endings.NeverCompleted`).

## Model

| member | source | states |
|---|---|---|
| `Bits.IntToBin` | utils/casting.c:9-24 | the shifting loop yields the low bits of the int, most significant first |
| `Bits.IntCodec` | utils/casting.c:5-24 | `bin_to_int` after `int_to_bin` is reduction modulo 2^k for every int and every width from 1 to 31 |
| `Bits.BytesToBin` | utils/casting.c:26-46 | the loop fills the buffer with eight characters a byte, in order |
| `WireFormat.BitOfByte` | utils/casting.c:26-46 | bit j of byte i stands at position 8·i + j, the most significant first |
| `Bits.BinToBytes` | utils/casting.c:48-63 | the loop turns each octet into its byte |
| `Bits.BytesRoundTrip` | utils/casting.c:26-63 | bytes to bits and back is the identity on byte sequences of any length |
| `Bits.BitsRoundTrip` | utils/casting.c:26-63 | bits to bytes and back is the identity on whole octets |
| `Rules.InitRuleIsProfile` | entities/rule.c:6-102 | whatever the identifier, `init_rule` yields one of the three profiles, and a well-formed rule |
| `Rules.RecoverSingleByte` | entities/rule.c:13-24 | a single-byte rule is recovered from any message that starts with its identifier |
| `Rules.RecoverOption1` | entities/rule.c:25-38 | so is an option 1 rule |
| `Rules.RecoverOption2` | entities/rule.c:39-49 | an option 2 rule is recovered exactly when the conversion of the whole message, saturated from 64 bits on, ends with the two low bits of its identifier |
| `Rules.RecoverLong` | entities/rule.c:13-49 | from 64 bits on a message gives back the rule it starts with if and only if that is not an option 2 rule other than id 18 |
| `WireFormat.RuleOfBytes` | entities/rule.c:14-50 | the first byte x of a message decides: below 224 the single byte rule x / 32, below 252 the option 1 rule (x / 4) % 8 + 6, else one of the four option 2 rules |
| `WireFormat.AcceptedSizes` | entities/rule.c:18-50 | and the packets accepted: from one byte up to 300, 480 and 2400 |
| `WireFormat.Numbers` | entities/rule.c:63-64 | the rules number 4, 4 and 8 windows, and 28, 48 and 248 fragments |
| `Fragments.GenerateFrg` | messages/fragment.c:183-243 | writing the fields one by one gives the fragment of the specification, or nothing exactly when the payload does not fit; `WireFormat` gives its bytes |
| `WireFormat.FitsExactly` | messages/fragment.c:195-201 | a fragment is generated if and only if it has at most twelve bytes, header included |
| `WireFormat.SingleByteFragment` | messages/fragment.c:206-240 | the bytes under a single byte rule: 32·id + 8·window + 6 less the position in the window; of an All-1 32·id + 8·window + 7, then 32 times the number of fragments in its window; then the payload |
| `WireFormat.Option1Fragment` | messages/fragment.c:206-240 | under an option 1 rule: 4·(id + 50) + window, then 16·(11 less the position), or 240 and the number of fragments in the window |
| `WireFormat.Option2Fragment` | messages/fragment.c:206-240 | under an option 2 rule: id + 237, then 32·window + 30 less the position; of an All-1 32·window + 31, then 8 times the number of fragments in the window |
| `Fragments.GenerateSenderAbort` | messages/fragment.c:152-181 | the Sender-Abort that carries the identifier of the fragment given, bit by bit as in `WireFormat.AbortLayout` |
| `WireFormat.AbortLayout` | messages/fragment.c:152-181 | the identifier of the fragment given, all '1' up to the end of the FCN, all '0' from there, up to the end of the byte |
| `WireFormat.SenderAbortBytes` | messages/fragment.c:152-181 | its bytes: 32·id + 31; 4·(id + 50) + 3 and 240; id + 237 and 255 |
| `WireFormat.Option1AbortReads` | messages/fragment.c:111-121 | under option 1 it reads as an All-1 with RCS 0, and as fragment 35 |
| `Fragments.GeneratedFields` | messages/fragment.c:18-52 | every field of a generated fragment reads back as written, whatever the payload |
| `Fragments.GeneratedClass` | messages/fragment.c:54-109 | a fragment is All-1 or All-0 exactly when generated so, and never a Sender-Abort |
| `Fragments.GeneratedNumber` | messages/fragment.c:261-277 | the fragment number is recovered in the (window, FCN) and in the (window, RCS) encoding |
| `Fragments.GeneratedPayload` | messages/fragment.c:133-150 | the payload and its size are recovered |
| `WireFormat.ReadSingleByte` | messages/fragment.c:41-131 | what any bytes are taken for under a single byte rule: All-0, All-1 and Sender-Abort as equivalences on the first byte and the length; window, number and header length |
| `WireFormat.ReadOption1` | messages/fragment.c:41-131 | the same under an option 1 rule, where nothing is ever taken for a Sender-Abort |
| `WireFormat.ReadOption2` | messages/fragment.c:41-131 | the same under an option 2 rule, where only a second byte 255 with nothing behind it is a Sender-Abort |
| `Fragments.AbortClass` | messages/fragment.c:152-181 | a generated Sender-Abort reads as an abort, and not as expecting an ACK, if and only if it is shorter than the All-1 header; otherwise it reads as an All-1 |
| `Fragments.RuleOfFragment` | messages/fragment.c:12-16 | the rule of a generated fragment is recovered, for option 2 if and only if its bits end as the identifier does or, from 64 bits on, the identifier is that of id 18 |
| `FrProcedure.FragmentPacket` | entities/fr_procedure.c:25-64 | -1 for an empty or oversized packet, otherwise the array holds the packet's fragments and the rest of it is unchanged |
| `WireFormat.SingleBytePacket` | entities/fr_procedure.c:7-64 | how many fragments a packet has under a single byte rule, and every byte of each: eleven of the packet behind its header, what is left of them in the last |
| `WireFormat.Option1Packet` | entities/fr_procedure.c:7-64 | the same under an option 1 rule: ten a fragment, and no empty one |
| `WireFormat.Option2Packet` | entities/fr_procedure.c:7-64 | the same under an option 2 rule: ten a fragment, and an empty All-1 for a multiple of ten |
| `FrProcedure.EnoughNumbers` | entities/fr_procedure.c:7-18 | no accepted packet needs more fragments than the rule can number |
| `FrProcedure.GetPacketLength` | entities/fr_procedure.c:66-79 | the scan computes the length function of the theorems |
| `FrProcedure.LengthAtAll1` | entities/fr_procedure.c:66-79 | the length is given by the position and the payload of the first All-1, for any array |
| `FrProcedure.NoLength` | entities/fr_procedure.c:66-79 | and -1 if and only if there is none before the limit |
| `FrProcedure.Reassemble` | entities/fr_procedure.c:81-91 | result code and buffer after pasting each payload at its place |
| `FrProcedure.ReassembledCode` | entities/fr_procedure.c:81-91 | the result code is 0 if and only if there is a null fragment up to the limit |
| `FrProcedure.FragmentsAreFaithful` | entities/fr_procedure.c:25-64 | each fragment of a packet reads back with its own number, window and class; only the last is All-1 |
| `FrProcedure.FragmentThenReassemble` | entities/fr_procedure.c:25-91 | fragmenting then reassembling is the identity on length and bytes, for every packet a rule accepts, the empty All-1 included |
| `Queues.FIFOQueue.constructor` | entities/fifo_queue.c:4-9 | an empty queue of capacity size - 1 |
| `Queues.FIFOQueue.Enqueue` | entities/fifo_queue.c:20-30 | appends, and is refused exactly when size - 1 elements are held |
| `Queues.FIFOQueue.Dequeue` | entities/fifo_queue.c:32-42 | takes the oldest element, and is NULL exactly when none is held |
| `Queues.DriveQueue` | entities/fifo_queue.c:4-42 | over any sequence of puts and gets the ring buffer behaves as the bounded sequence |
| `Queues.FirstInFirstOut` | entities/fifo_queue.c:20-42 | what comes out, then what is left, is what was there, then what was accepted, in order |
| `Acks.GetAckNbTuples` | messages/ack.c:56-76 | the loop counts exactly the tuples of the specification |
| `Acks.GetAckTuples` | messages/ack.c:78-100 | the arrays receive those tuples |
| `AckFormat.TuplesExactly` | messages/ack.c:56-100 | which tuples are read out of any eight bytes: the one of the fixed part, and one more at every further place as long as its window is not 0 and it starts early enough |
| `Acks.GenerateAck` | messages/ack.c:168-233 | filling the 64 characters field by field gives the ACK of the specification, or nothing exactly when it refuses a complete one |
| `AckProofs.CompleteRefused` | messages/ack.c:185-188 | a complete ACK is refused if and only if a window up to its own is blank or has a '0' |
| `SessionProofs.CompleteExactly` | messages/ack.c:185-188 | from the windows of a bitmap the one for window w is generated if and only if every fragment below (w + 1) windows is marked |
| `WireFormat.CompleteAckBytes` | messages/ack.c:185-232 | the bytes of a complete ACK, for each profile; the rest of the eight are 0 |
| `AckFormat.ReportLayout` | messages/ack.c:194-232 | the place of every bit of a loss report: identifier, first window, a '0' for C, its bitmap, the further windows with their bitmaps, '0's up to 64 |
| `Acks.GenerateReceiverAbort` | messages/ack.c:235-267 | the buffer becomes the Receiver-Abort: header fields all '1', then '1' up to a byte boundary and one byte more |
| `WireFormat.ReceiverAbortBytes` | messages/ack.c:235-267 | its bytes, for each profile: the identifier, then '1's to the end of byte 2, 3 and 3, then zeros |
| `AckProofs.CompoundAckRoundTrip` | messages/ack.c:56-233 | reading the ACK generated for any bitmaps with some loss yields the lossy (window, bitmap) pairs, windows strictly increasing, up to the reader's capacity |
| `AckProofs.Capacities` | messages/ack.c:194-222 | the writer packs up to 6, 4 and 1 tuples, the reader returns up to 6, 3 and 1 |
| `AckProofs.LossReportClass` | messages/ack.c:102-166 | no generated loss report is taken for a Receiver-Abort or a complete ACK; and it is compound if and only if it reports two windows or something of the first has arrived |
| `AckProofs.CompleteAckClass` | messages/ack.c:144-166 | a complete ACK is recognised, with its window, and is no Receiver-Abort and no loss report |
| `AckProofs.ReceiverAbortClass` | messages/ack.c:102-142 | every generated Receiver-Abort is recognised, and is neither complete nor a loss report |
| `AckFormat.ReceiverAbortExactly` | messages/ack.c:102-142 | which eight bytes are taken for a Receiver-Abort: if and only if window and C are all '1' and behind the header there are '1's to the end of a further byte and '0's from there |
| `AckFormat.CompleteAckExactly` | messages/ack.c:154-166 | for a complete ACK: if and only if C is '1' and nothing but '0' follows |
| `AckFormat.CompoundAckExactly` | messages/ack.c:144-152 | for a compound one: if and only if it is no Receiver-Abort and a '1' follows the header |
| `AckProofs.RuleOfAck` | messages/ack.c:12-16 | the rule of any generated ACK or Receiver-Abort is recovered if and only if it is not an option 2 rule other than id 18 |
| `SenderQueues.ZeroRefsExact` | entities/schc_sender.c:115-120 | the inner loop of `update_queues` collects exactly the positions whose bit is '0', in increasing order |
| `SenderQueues.LossRefsSound` | entities/schc_sender.c:97-121 | what is queued for an ACK with increasing windows is reported lost by it |
| `SenderQueues.LossRefsComplete` | entities/schc_sender.c:97-121 | and everything it reports lost below the All-1 is queued, when the sender deems no tuple before the last loss-free |
| `SenderQueues.QueueLossesIs` | entities/schc_sender.c:80-128 | on increasing windows of the packet no put of `update_queues` is refused: the queue grows by exactly the losses |
| `SenderQueues.HandedOver` | entities/schc_sender.c:97-125 | on any ACK whatever, the pointers handed to `fq_put` are the losses of the tuples it gets to, in their order, and the queue takes what it has room for |
| `SenderQueues.PointersInside` | entities/schc_sender.c:115-120 | for any ACK: none of them leaves the fragment array if and only if no tuple it works through names a window after the packet's last |
| `SenderInvariant.StepKeeps` | entities/schc_sender.c:179-244 | from any state of the invariant a step finds its element, keeps the invariant (rt iff retransmissions wait; they are distinct, increasing and below the All-1; unsent fragments wait in order) and fails no send |
| `SenderRuns.NoPutRefused` | entities/fifo_queue.c:20-30 | no put of a run meets a full queue: with queues of any greater capacity the run is the same, state and outcome |
| `SenderRuns.PlainAcksSafe` | messages/ack.c:168-233 | what is assumed of ACKs holds when every delivered one, Receiver-Aborts aside, has increasing windows and, for a rule whose Sender-Abort reads as an All-1, none after the packet's last |
| `SenderRuns.SafeRun` | entities/schc_sender.c:223-244 | no run gets stuck on an empty queue, leaves the array or fails on the network, and a run that goes on satisfies the invariant |
| `AnyAcks.SoundRun` | entities/schc_sender.c:80-244 | the same for ACKs with windows in any order and repeated, as long as what the queue takes of them points into the array; the retransmissions may then repeat and include fragments not sent yet |
| `AnyAcks.PacketWindowsInside` | entities/schc_sender.c:97-121 | that holds of every ACK whose tuples, as far as they are worked through, name windows of the packet |
| `AnyAcks.InsideExactly` | entities/schc_sender.c:115-120 | and of no other, where the queue has room for all its pointers |
| `AnyAcks.SafeAcksInside` | entities/schc_sender.c:97-121 | ACKs with increasing windows of the packet are among them, over whole runs |
| `AnyAcks.OutsideSticks` | entities/schc_sender.c:229-233 | without it the run is stuck on that pointer after at most as many more steps as the queue holds |
| `Exits.SoundOutcome` | entities/schc_sender.c:179-221 | from any sound state and whatever arrives, a step ends the run as SENDER_ABORTED, RECEIVER_ABORTED or COMPLETED exactly when it sends a Sender-Abort, when it hears a Receiver-Abort, and when an All-1 is answered by a complete ACK for the last window |
| `Exits.NeverSenderAborted` | messages/fragment.c:62-109 | under a rule whose Sender-Abort reads as an All-1 no run returns SENDER_ABORTED, whatever ACKs arrive |
| `Exits.DrainsExactly` | entities/schc_sender.c:90-95 | whatever ACK arrives, a step empties the transmission queue if and only if the ACK for the last queued All-1 names a window after the All-1's own |
| `Exits.SilentExitExactly` | entities/schc_sender.c:223-244 | whatever ACKs arrive, a run leaves the loop by draining both queues if and only if such a step occurs in it |
| `Exits.NoSilentExit` | entities/schc_sender.c:108-127 | with ACKs whose last window is one of the packet's it never does |
| `SenderTermination.Terminates` | entities/schc_sender.c:159-244 | from any sound state, with ACKs in any order, a run is over within a bound on the delivered ACKs, the attempts left and the queue lengths |
| `SenderTermination.TerminatesFromStart` | entities/schc_sender.c:223-244 | with K delivered ACKs a transfer takes at most K (n + p + 1) + n + p steps, p being MAX_ACK_REQUESTS or 1 if that is 0 |
| `SenderSilence.SilentRunFrom` | entities/schc_sender.c:159-192 | without an ACK the run is determined send by send, for every rule and configuration |
| `SenderSilence.SilentRun` | entities/schc_sender.c:159-192 | it is n - 1 fragments once each, the All-1 exactly p times, one Sender-Abort, and SENDER_ABORTED |
| `SenderSilence.SilentRunNeverEnds` | messages/fragment.c:62-109 | unless the Sender-Abort reads as an All-1 or the limit is disabled: then the queue is never empty |
| `SenderTrace.TraceOfRun` | entities/schc_sender.c:179-244 | from any state: first sends are in order, every retransmission was reported lost by an earlier ACK |
| `SenderTrace.TraceFromStart` | entities/schc_sender.c:179-244 | first sends are 0, 1, 2, ... in that order, and COMPLETED implies that every fragment was sent |
| `SenderTrace.RetransmissionsFirst` | entities/schc_sender.c:223-232 | queued retransmissions all go out, in order, before the next transmission, whatever the channel does |
| `SenderImpl.SCHCSender.constructor` | entities/schc_sender.c:8-31 | a sender with null fragments and two empty queues of the packet's size |
| `SenderImpl.SenderConstruct` | entities/schc_sender.c:8-31 | -1 exactly for a packet that cannot be fragmented, otherwise its fragments and two empty queues |
| `SenderImpl.SCHCSender.GetBitmapToRetransmit` | entities/schc_sender.c:55-78 | -1 exactly when the tuple reports nothing missing, otherwise the bits to look at |
| `SenderImpl.SCHCSender.UpdateQueues` | entities/schc_sender.c:80-128 | the two loops over real queues change the sender as the state machine says |
| `SenderImpl.SCHCSender.TimeoutProcedure` | entities/schc_sender.c:159-177 | the All-1 goes back, or is overwritten in place; an All-0 proceeds; a regular fragment is a network error |
| `SenderImpl.SCHCSender.Send` | entities/schc_sender.c:179-221 | `schc` refines one transition of the state machine, result included; what is read counts exactly as `SenderModel.DeliversExactly` says |
| `SenderModel.DeliversExactly` | sockets/sigfox_socket.c:48-77 | what is read counts as received if and only if one of its first eight bytes is not zero, and it is those bytes, zeros where the datagram ends |
| `SenderModel.ZerosAreSilence` | sockets/sigfox_socket.c:66-77 | a step that reads eight zero bytes has the state and outcome of one whose read times out, in any state that waits with nothing left to retransmit or does not wait |
| `SenderImpl.SCHCSender.SenderStart` | entities/schc_sender.c:223-244 | the loop over the real queues refines a run of the state machine, final state and outcome |
| `SenderImpl.SendPacket` | entities/schc_sender.h:39-143 | construct then start: every theorem about runs from the start holds of the class |
| `SessionImpl.SCHCSession.constructor` | entities/schc_session.c:8-62 | a fresh session: nothing stored, marked or requested |
| `SessionImpl.SCHCSession.StoreFrg` | entities/schc_session.c:108-196 | 0 and nothing stored if and only if the number is marked or it is the last All-1 and that was answered by a complete ACK; otherwise 1, and the fragment is stored at its number |
| `SessionImpl.SCHCSession.MarkReceived` | entities/schc_session.c:205-208 | exactly the bit of the fragment's number is set |
| `SessionImpl.SCHCSession.CheckBitmaps` | entities/schc_session.c:234-275 | 1 exactly when some window up to the fragment's is lossy; the table receives exactly those bitmaps, blanks otherwise |
| `SessionImpl.SCHCSession.GenerateSessionAck` | entities/schc_session.c:277-285 | -1, and the session unchanged, exactly when `generate_ack` refuses |
| `SessionImpl.SCHCSession.UpdateRequested` | entities/schc_session.c:210-232 | what the ACK reports lost becomes requested, nothing else changes; -1 for a complete ACK |
| `SessionProofs.ArrivalOrder` | entities/schc_session.c:44-208 | in any order, with any duplicates, a bit is set if and only if its fragment has arrived, and then that fragment is stored |
| `SessionProofs.FirstArrivalKept` | entities/schc_session.c:108-208 | whatever numbered fragments arrive, of one packet or not: a fresh session marks exactly their numbers, and keeps of each number the fragment that arrived with it first |
| `SessionProofs.StoredOnce` | entities/schc_session.c:190-196 | one more is stored if and only if none with its number has arrived before |
| `SessionProofs.SessionReassembles` | entities/fr_procedure.c:66-91 | once all have arrived the session's own array gives back the packet |
| `SessionProofs.AckOnlyOnLoss` | messages/ack.c:185-188 | `session_generate_ack` succeeds if and only if some window is lossy, and never with a complete ACK |
| `SessionProofs.FullyReceivedCheck` | entities/schc_session.c:234-275 | with everything marked the All-1 check reports no loss if and only if n is a multiple of the window size |
| `Repair.IncompleteExact` | entities/schc_session.c:234-275 | the windows the ACK can report: exactly the incomplete ones up to the trigger's, increasing |
| `Repair.WindowLostMarks` | entities/schc_session.c:248-272 | the check's verdict on a window, mark by mark: some fragment is not marked; in the All-1's own window some mark is not the expected one |
| `Repair.IncompleteMarks` | entities/schc_session.c:248-272 | and so which windows the ACK can report |
| `Repair.SeenCounts` | messages/ack.c:56-76 | of which the sender sees all, the first three or the first one, by profile |
| `Repair.RepairExact` | entities/schc_sender.c:80-128 | bitmap check, ACK, eight bytes, tuples and `update_queues` leave exactly the missing fragments of the windows seen, increasing, and the right next transmission |
| `Repair.CanonicalNeverGivesUp` | entities/schc_sender.c:55-78 | with a canonical last window the sender never answers a report with a Sender-Abort |
| `Delivery.VisibleExactly` | sockets/sigfox_socket.c:70-72 | a loss report is lost as eight zero bytes if and only if the identifier is all '0', only window 0 is reported and nothing of it has arrived |
| `Unheard.InvisibleExactly` | sockets/sigfox_socket.c:66-77 | a report is invisible if and only if its eight bytes are zero, and if and only if the read that receives it delivers nothing |
| `Unheard.InvisibleReportStep` | sockets/sigfox_socket.c:66-77 | the step of a waiting sender that reads an invisible report is that of an unanswered All-1: the whole state and outcome |
| `Unheard.InvisibleReportRun` | entities/schc_sender.c:159-200 | a session that answers every All-1 with an invisible report: the sender sends it as often as it has patience left, one Sender-Abort, and returns SENDER_ABORTED |
| `Progress.IncompleteIs` | entities/schc_session.c:234-275 | an All-1 check reports exactly the windows that miss data below the All-1 and, last, possibly the packet's last window although it misses none |
| `Progress.RoundDropsShort` | entities/schc_session.c:190-208 | whatever the bitmap, one round brings all data of the first min(c, L) of the L windows that miss some, and leaves the others missing some |
| `Progress.NoUnmark` | entities/schc_session.c:205-208 | no round un-marks a fragment |
| `Progress.RoundsProgress` | entities/schc_sender.c:97-125 | k rounds bring all data of the first k c of those windows, leave the rest, un-mark nothing |
| `Progress.ProgressExactly` | entities/schc_sender.c:97-125 | after at least ceil(L / c) rounds nothing is missing if and only if nothing was lacking or the first report is visible |
| `Stored.DeliveredExactly` | entities/fr_procedure.c:66-91 | a session that stores the fragments that have arrived, the All-1 among them, gives back the packet, length and bytes, if and only if every fragment below the All-1 is marked |
| `Stored.ProgressDelivers` | entities/schc_sender.c:97-125 | so the packet is delivered after at least ceil(L / c) rounds if and only if nothing was lacking or the first report is visible |
| `LiveSessions.TracksLive` | entities/schc_session.c:108-208 | a session in which the All-1 has arrived, whatever else in whatever order, is live: the All-1 marked and nothing behind it |
| `LiveSessions.MarkedCanonical` | entities/schc_session.c:205-208 | its last window is then canonical if and only if the packet fills it |
| `LiveSessions.MarkedReports` | entities/schc_session.c:234-275 | a session in which the All-1 has arrived reports exactly the windows that miss data and, last, the packet's last one unless the packet fills it |
| `LiveSessions.GivesUpExactly` | entities/schc_sender.c:55-113 | a live session's report is answered by a Sender-Abort if and only if the packet neither fills its last window nor leaves the All-1 alone in it, and that window is among those seen and has all its data |
| `LiveSessions.GivesUpRepairs` | entities/schc_sender.c:97-125 | what is queued then brings everything that was missing |
| `Agreement.BothEndsAgree` | entities/schc_session.c:210-232 | on one ACK the sender enqueues exactly what the session newly requests below the All-1, and no request is withdrawn |
| `Agreement.FullReception` | entities/schc_session.c:277-285 | a packet received completely: no ACK if it fills its last window; otherwise a loss report, answered by the All-1 again or by a Sender-Abort, and never a retransmission |
| `Conversation.ReportQueued` | entities/schc_sender.c:80-128 | `update_queues` on a session's report, to an All-0 or the All-1: exactly what is wanted to retransmit, and the All-1 again, a Sender-Abort or nothing to transmit |
| `Conversation.RoundOnTheWire` | entities/schc_sender.c:179-244 | from the sender, whichever fragment made the session check: the report is heard, and then it sends exactly what is wanted, in order |
| `FirstPasses.FirstPass` | entities/schc_sender.c:223-244 | a first pass with any All-0 answered by a report on any bitmap: every fragment below the All-1 once and in order, each report followed by exactly what it asks for, and then only the All-1 is queued |
| `Transfers.LiveRoundAborts` | entities/schc_sender.c:108-113 | a live session's report and one more send: the run has ended with SENDER_ABORTED if and only if a Sender-Abort can be told from an All-1 and the condition of `GivesUpExactly` holds |
| `Transfers.LiveRoundProgresses` | entities/schc_sender.c:97-125 | otherwise the sender waits again, and the windows the report let it see miss no data any more |
| `Transfers.DialogueRuns` | entities/schc_sender.c:223-244 | any number of rounds seen from the sender: the run after them, what it has sent, and that it waits again |
| `Transfers.DialogueEnds` | entities/schc_sender.c:97-125 | after at least ceil(L / c) rounds nothing is missing or the sender gives up |
| `Outcomes.ExchangeDelivers` | entities/schc_session.c:190-208 | from the receiver: the retransmissions of that log, delivered, take the session through the same rounds |
| `Outcomes.TransferCompletes` | entities/schc_sender.c:223-244 | from the start, any first pass, any session that stores what has arrived, enough rounds, no giving up and a complete ACK: COMPLETED, the log exactly the first pass, the rounds and one All-1, and the receiver's array gives back the packet, length and bytes |
| `Outcomes.NeverGivesUp` | entities/schc_sender.c:55-78 | with a live session of a packet that fills its last window, or whose All-1 is alone in it, there is no giving up after any number of rounds |
| `Outcomes.TransferAborts` | entities/schc_sender.c:108-113 | every other packet, with a Sender-Abort that can be told from an All-1: after enough rounds the next report makes the sender give up; SENDER_ABORTED, the log exact, and the receiver's array gives back the packet |
| `Outcomes.TransferCancelled` | entities/schc_sender.c:202-205 | a generated Receiver-Abort that answers the All-1 after any first pass and any rounds: RECEIVER_ABORTED, the log exact |
| `Outcomes.ReceiverAbortAnswers` | entities/schc_sender.c:202-205 | a generated Receiver-Abort ends the run at any step that listens, from any state of the invariant, for every rule |
| `Outcomes.NeverAcknowledged` | entities/schc_session.c:277-285 | a packet received completely with its All-1 alone in its window: however many reports arrive, the sender neither completes nor gives up |
| `Failures.LaterWindowDrains` | entities/schc_sender.c:90-95 | a run that fails: any packet, and a generated ACK that names any window after its last; the sender leaves its loop without a result code |
| `Failures.SilentExitPossible` | entities/schc_sender.c:223-244 | some ACKs, of any kind, lead to such a run if and only if the numbering has a window after the packet's last |
| `Failures.OneFragmentDrains` | entities/schc_sender.c:90-95 | such an input: single byte, one byte of packet, an ACK for window 3 |
| `Failures.FirstWindowInvisible` | sockets/sigfox_socket.c:70-72 | an identifier all '0', a packet that fills more than one window, and all of window 0 lost: the live session's report is invisible, and no number of rounds changes anything |
| `Failures.FourteenFragmentsInvisible` | sockets/sigfox_socket.c:70-72 | such an input: single byte rule 0, fourteen fragments, the first seven lost |
| `Unheard.FourteenFragmentsAnswer` | sockets/sigfox_socket.c:66-77 | on that input the session answers every All-1 with eight zero bytes, and stays as it is |
| `Unheard.FourteenFragmentsUnheard` | sockets/sigfox_socket.c:66-77 | and the sender, given these bytes, sends n - 1 fragments once each, the All-1 exactly p times and one Sender-Abort, and returns SENDER_ABORTED |
| `Failures.SomeRunAborts` | entities/schc_sender.c:108-113 | for every packet `TransferAborts` is about and every session that stores some of its fragments, the All-1 among them, and whose report, if data is missing, is visible, there is a run that ends with SENDER_ABORTED although what it retransmits makes the receiver's array give back the packet |
| `Failures.TenFragmentsAborted` | entities/schc_sender.c:108-113 | such an input: single byte rule 1, ten fragments, the first one lost |
| `StuckRuns.OutsidePossible` | entities/schc_sender.c:90-121 | some ACKs make the sender follow a pointer past its array exactly when the numbering has a window after the packet's last and, unless the Sender-Abort reads as an All-1, the packet has one before its last and an ACK holds two tuples |
| `StuckRuns.EightFragmentsStick` | entities/schc_sender.c:90-121 | such an input: single byte rule 1, eight fragments, an ACK that names windows 3 and 1 |
| `LossyRounds.AsksAgain` | entities/schc_session.c:234-275 | when retransmissions are lost the next report asks again for exactly those of them that did not arrive, besides others |
| `LossyRounds.LossyMarks` | entities/schc_session.c:205-208 | over any turns, with any losses, the marks grow by exactly what arrives |
| `LossyRounds.LossyProgress` | entities/schc_session.c:190-208 | over any turns what is missing shrinks by exactly what arrives, and no fragment arrives in two of them |
| `LossyRounds.LossyRuns` | entities/schc_sender.c:159-244 | any turns seen from the sender: with fewer unanswered All-1s in a row than it has patience, the run after them, what it has sent, and that it waits again |
| `LossyRounds.LossyDelivers` | entities/fr_procedure.c:66-91 | the receiver's array then gives back the packet if and only if everything that was missing has arrived |
| `LossyRounds.FullTurn` | entities/schc_session.c:190-208 | a turn in which everything asked for arrives is a round without losses |
| `LossyRounds.LossyTransferCompletes` | entities/schc_sender.c:223-244 | a whole transfer that loses fragments, answers, reports and retransmissions: a complete ACK ends it with COMPLETED and an exact log, and the receiver's array gives back the packet if and only if everything that was missing has arrived, in whatever turns |
| `LossyRounds.LossyTransferAborts` | entities/schc_sender.c:108-113 | one that is given up: SENDER_ABORTED whatever arrives of the last retransmissions, and the packet delivered exactly when everything missing does |
| `LossyRounds.LossSilences` | sockets/sigfox_socket.c:70-72 | a loss that makes a visible report invisible, after which no number of rounds brings the rest |
| `LossyRounds.FourteenFragmentsSilenced` | sockets/sigfox_socket.c:70-72 | such an input: single byte rule 0, fourteen fragments, the first eight lost, of which only the last then arrives |
| `Endings.NeverCompleted` | entities/schc_session.c:277-285 | from any state, a run whose ACKs are all made by sessions, for whatever bitmaps, or are Receiver-Aborts, never ends with COMPLETED |
| `Endings.WaitingUnheard` | entities/schc_sender.c:159-192 | a waiting sender that has sent `a` All-1s in vain and hears nothing more sends the All-1 exactly p - a times (once if a is p or more), one Sender-Abort, and returns SENDER_ABORTED; for option 1, or with the limit disabled, it never ends |
| `Endings.LossyTransferUnanswered` | entities/schc_sender.c:159-244 | so does any transfer with losses that is then met by silence, with an exact log; the packet is delivered if and only if everything that was missing has arrived before |
| `Endings.TransferUnanswered` | entities/schc_session.c:277-285 | a packet that fills its last window: after enough rounds it is delivered, the session refuses to answer, and the sender ends in that way |
| `Endings.GoesOn` | entities/schc_sender.c:80-221 | under option 1 a sender that has given up transmits only its Sender-Abort, whatever ACKs it hears; it ends only by a Receiver-Abort or a complete ACK, and is stuck only if an ACK puts a pointer outside the array |
| `Endings.TransferGoesOn` | entities/schc_sender.c:108-125 | a transfer given up under option 1, and then silence: it goes on for ever, although the packet is delivered |
| `Endings.EightFragmentsEndless` | entities/schc_session.c:277-285 | an input for the endless exchange: single byte rule 1, eight fragments, all arrived and the packet delivered; after any number of reports heard the sender still waits |

A window is *canonical* when it is the last one, its final position is '1' and the unused
positions before it are '0', which is what `session_check_bitmaps` expects. It *misses data*
when a fragment of it below the All-1 has not arrived. `c` is the number of tuples the reader
returns. The *receiver's array gives back the packet* when the length `get_packet_length_from_array`
computes and the bytes `reassemble` pastes are the packet's (`Stored.Delivered`); a session stores
what has arrived when exactly the fragments that have arrived are marked and stored
(`Stored.Stores`). The theorems about several rounds without losses start from a session whose report, if data is
missing, is visible (`Progress.Repairing`); `Progress.InvisibleStuck` is about the others.

## Left out

- Sockets, timeouts and loss rates (`sockets/sigfox_socket.c`, `schc_send`, `schc_recv`): replaced by the events above. A send can fail only as a read timeout while the sender listens, so that `update_rt` is skipped only there.
- `printf`, timestamps, memory management and the fixed sizes, terminators and variable-length arrays of C buffers. The bytes behind a null fragment or a null ACK are not modelled.
- Floating-point division in `get_nb_fragments`, `get_nb_windows` and `round_to_next_multiple`: integer arithmetic with the same results on the sizes in question.
- `session_expects_fragment`, `session_has_pending_ack`, `start_new_session`, the session's abort and timeout helpers and `session_schc_recv`, which is commented out: nothing live drives them. In particular `lastFragment` and `lastAck` of a session keep their initial values, and no claim is made about a finished receiver.
- `parse_rule_from_bytes`, `generate_packet` and the string helpers of `utils/misc.c` other than `is_monochar`: no property beyond their bodies.
- Rules.RecoverOption2: stated for messages that start with the identifier of an option 2 rule; `init_rule` on other strings is covered by `Rules.InitRuleIsProfile` only.
- FrProcedure.GetPacketLength: requires an All-1 before the null fragment; without one the source falls off the end without a value.
- FrProcedure.Reassemble: requires every payload to land inside the destination, which the source takes for granted.
- Fragments.GenerateSenderAbort: requires a source fragment at least as long as its rule identifier; the source reads past a shorter one.
- Bits.BinToBytes: requires a whole number of octets, which is all the codecs use; the source reads past the end of other strings.
- Acks.GetAckTuples: requires the number of tuples to be the one `get_ack_nb_tuples` returns, as both callers do.
- SessionImpl.SCHCSession.GenerateSessionAck: requires a fragment that expects an ACK; on another one the source hands an uninitialised table to `generate_ack`. The table it fills is blank at first here, uninitialised in the source.
- SessionImpl.SCHCSession.CheckBitmaps: requires the RCS of an All-1 to be between 1 and the window size, as it is for every generated fragment; the source computes a negative size otherwise.
- `is_ack_receiver_abort` with fewer than eight bits between the header and the last '1': the source computes a negative size, the model answers no. No generated ACK is of this kind.
- SenderImpl.SCHCSender.SenderStart: observed for one iteration per event; the events are a parameter because the network is. Termination is a theorem about the state machine it refines.
- Outcomes.TransferCompletes: the complete ACK that ends the transfer is one `generate_ack` can build, not one the live session ever builds (`Endings.NeverCompleted`). Retransmissions are not lost within a round; `LossyRounds.LossyTransferCompletes` is the transfer in which they may be.
- Outcomes.TransferAborts: requires a rule whose Sender-Abort can be told from an All-1; `Endings.TransferGoesOn` is the transfer under the other one.
- LossyRounds.LossyTransferCompletes: what the receiver has stored is taken from the moment the All-1 has first arrived; a turn without the All-1 or its report counts as unanswered.
