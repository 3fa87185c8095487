# rbtl verification

A Dafny model of rbtl's transports and its orchestrator, and proofs of what they promise.

- **Reliable UDP** (`rbtl-rudp`). A sender cuts a message into fragments, keeps it, and sends again what the last acknowledgement bitmap misses. A receiver gathers fragments in any order and number, delivers the message and acknowledges it. `Delivery` runs both over a network that may lose, repeat and reorder every packet; `Handshake` runs any number of clients against one listener.
- **TCP** (`rbtl-tcp`). An incremental parser takes the byte stream in any chunks; acknowledgements carry wrapped 32-bit ids. `TcpLink` runs two sockets over ordered streams.
- **Orchestrator** (`src/macr.rs`). The connector tries one protocol after the other; the asynchronous client shares an event queue with a worker thread.

Code that changes state is modelled by classes and methods over fields, arrays, maps and sequences. Each method is proved against a function of its old state, and the theorems are about runs of those functions.

| files | model |
|---|---|
| `Prelude`, `BigEndian` | words, bits, clocks, byte buffers |
| `AckBitmap`, `Fragmentation`, `Assembler`, `SentData` | the engine's parts |
| `AssemblerRuns`, `AssemblerTimes`, `SentDataRuns`, `SentDataTimes` | one end over whole runs, and when it drops, acknowledges and sends again |
| `Delivery`, `DeliveryGap`, `DeliveryRepairs`, `Repair` | both ends together |
| `Sealed`, `SealedRuns`, `SealedDelivery`, `SealedReports`, `SealedPanics` | encrypted messages: what repair makes of them, one end over whole runs, both ends together |
| `Packet`, `PacketRuns` | the wire format |
| `Connection`, `ConnectionTimes`, `RudpSocket`, `RudpLink`, `RudpExchange`, `Listener`, `Handshake` | sockets, two of them together, and the handshake |
| `StreamIngester`, `TcpStream`, `TcpSocket`, `TcpLink` | TCP |
| `Connector`, `EventQueue` | the orchestrator |

`dafny verify dfyconfig.toml` checks everything.

## What comes from outside

Clocks are natural numbers of nanoseconds; the runs whose theorems speak of time have clocks that do not run backwards. Time, what the network delivers, the order in which a hash map is visited, the outcome of starting a protocol and the status of its client are parameters or choices of a run. CRC-32, the cipher and X25519 are function parameters; of key agreement only commutativity is used, and of the cipher (in the `Sealed` modules) that nothing but the sealed bytes opens. Writes and sends always succeed in full.

## Where the code and its documentation differ

The model follows the code.

- An acknowledgement bitmap has `ceil(frag_total / 8)` bytes although ids run up to and including `frag_total`. For `frag_total` 8, 16, ... the last fragment has no bit ("the gap"): a receiver that holds it while incomplete panics when it acknowledges, and a sender that is told of all the others takes the message for received. Every acknowledgement theorem is stated outside the gap or says what happens inside it. For plain messages `DeliveryGap.TrustworthyExactlyOutsideGap` and `DeliveryGap.PanicFreeExactlyOutsideGap` show that both failures happen for exactly the messages in the gap; encrypted ones fail for others too, as said below.
- The generator's 8-bit id counter is incremented for the last fragment too, so the 256th fragment overflows it. A release build wraps; a build that checks overflow panics there, and `Fragmentation.BuildFragmentsFromBytes` says for which messages. The senders of the model are those of a release build.
- Messages are encrypted by default, and repair sends the plain bytes of an encrypted message under its old id, without the encryption flag. `Sealed.RepairPanicsExactly` says when that panics. `SealedRuns.AlwaysReadExactly` says for which lengths the receiver still always reads the message, and `SealedRuns.NeverWrongExactly` for which it may deliver wrong bytes. Repair also counts the fragments of the plain bytes when it asks what an acknowledgement misses. So the sender's report of an encrypted message can be trusted exactly when the sealed bytes fit in one fragment (`SealedReports.ReportTrustworthyExactly`), and its receiver may panic exactly when the plain or the sealed bytes are in the gap (`SealedPanics.ReceiverPanicFreeExactly`): a message of 1152 bytes is reported received after its first fragment, one of 9216 bytes can panic its receiver, and neither is in the gap.
- Repaired fragments carry no key flag, and the first fragment to arrive decides whether the receiver acknowledges. A key message of which only repaired fragments arrive is output but never acknowledged, and its sender repairs it until it expires, if it ever does (`DeliveryRepairs.RepairsAloneAreNotAcknowledged`, `DeliveryRepairs.OutputUnheard`).
- A completed set is forgotten after 20 s, so delivery is at most once per lifetime of a set, not for ever. `AssemblerRuns.DeliveriesExactly` counts the deliveries of any run, and `AssemblerRuns.DeliveredTwice` is a run with two.
- A zero-length TCP data message is only reported when the next byte arrives, and an error drops the rest of its chunk. After a refused length that arrived in pieces, the parser keeps the header and reports the error again for every chunk (`StreamIngester.Ingester.StuckExactly`, `StreamIngester.Ingester.TakeBytes`). What follows a refused header is parsed as if it were messages, so receipts can be trusted exactly when no message exceeds the other end's limit (`TcpLink.SoundExactlyWithinLimits`).
- `drain_events` after `next_event` hands out the events left over backwards; the documentation only warns of having to drain twice (`EventQueue.MixedInOrderExactly`).
- After `attempt_connect` has handed out a client, later calls report that no protocol could connect (`Connector.AfterSuccessOnlyFailure`).
- A socket that timed out or was ended by its peer is silent only until its user ends it once more (`Connection.SilenceBrokenByTerminateOnly`).

## Model

| member | source | states |
|---|---|---|
| `AckBitmap.CreateFromFragIds` | rbtl-rudp/src/net/protocol/fragment/ack.rs:64-76 | every write is in bounds iff every id has a bit; otherwise the index panic. In bounds, bit `v` is set iff `v` was received, and the buffer has the size the receiver of the bitmap expects |
| `AckBitmap.MissingComplementsBitmap` | rbtl-rudp/src/net/protocol/fragment/ack.rs:40-57 | for every set of ids and every message size, the missing-id iterator over the bitmap of the set is the ascending list of the ids not in the set; the last id of a message is never listed when `frag_total` is a multiple of 8 |
| `AckBitmap.CompleteMissesNothing` | rbtl-rudp/src/net/protocol/fragment/ack.rs:60-62 | a complete acknowledgement misses nothing, for every message size |
| `AckBitmap.AbsentBelowAscends` | rbtl-rudp/src/net/protocol/fragment/ack.rs:40-57 | the reference list really is ascending and holds exactly the absent ids |
| `Fragmentation.SetFlag` | rbtl-rudp/src/net/protocol/fragment/mod.rs:16-29 | a setter shows in its own flag bit and in no other of the 16 |
| `Fragmentation.SendableLimit` | rbtl-rudp/src/net/protocol/fragment/frag_generation.rs:20-33 | a message is accepted exactly when it is not empty and at most 1152 * 256 bytes long, and then takes 1 to 256 fragments |
| `Fragmentation.FragmentGenerator.New` | rbtl-rudp/src/net/protocol/fragment/frag_generation.rs:20-44 | refuses exactly the unsendable messages and otherwise stands before the first fragment |
| `Fragmentation.FragmentGenerator.Next` | rbtl-rudp/src/net/protocol/fragment/frag_generation.rs:53-66 | yields the next chunk under the next id, and nothing after the last; the 8-bit counter moves on first, and after the 256th fragment wraps, or panics in a build that checks overflow |
| `Fragmentation.BuildFragmentsFromBytes` | rbtl-rudp/src/net/protocol/fragment/mod.rs:206-221 | yields fragments 0..frag_total of the message in order, or the error for an empty or an oversized message; running the generator to its end in a build that checks overflow panics exactly for messages longer than 255 * 1152 bytes |
| `Fragmentation.BuildDataFromFragments` | rbtl-rudp/src/net/protocol/fragment/mod.rs:126-154 | for any list of fragments: exactly when it is rejected, when the assertions panic, and otherwise the joined data, whatever the order |
| `Fragmentation.JoinedWhole` | rbtl-rudp/src/net/protocol/fragment/mod.rs:146-153 | all parts of a message, each under its own id, join to the message |
| `Fragmentation.AnyOrderPlaces` | rbtl-rudp/src/net/protocol/fragment/mod.rs:131-144 | every reordering of a message's fragments passes the slot checks and the assertions |
| `Fragmentation.AnyOrderRebuilds` | rbtl-rudp/src/net/protocol/fragment/mod.rs:126-154 | every reordering of the fragments generated from a message joins to that message: fragmentation and reassembly are inverse under every permutation |
| `Assembler.FragmentAssembler.NextOutMessage` | rbtl-rudp/src/net/protocol/fragment/frag_assembly.rs:187-189 | pops the oldest message |
| `Assembler.FragmentAssembler.TransformMessage` | rbtl-rudp/src/net/protocol/fragment/frag_assembly.rs:152-185 | marks the full set complete and outputs its message exactly when the totals agree and, if the leading fragment is encrypted, the cipher opens it |
| `Assembler.FragmentAssembler.Push` | rbtl-rudp/src/net/protocol/fragment/frag_assembly.rs:194-235 | files the fragment and outputs the message of a full set, or drops a corrupted set: the exact new map and output queue, without a panic for any well-formed fragment |
| `Assembler.FragmentAssembler.Tick` | rbtl-rudp/src/net/protocol/fragment/frag_assembly.rs:238-267 | drops exactly the stale sets and acknowledges each due set once; panics only if a due set holds an id without a bit |
| `Assembler.GenerateAck` | rbtl-rudp/src/net/protocol/fragment/frag_assembly.rs:75-88 | the acknowledgement of a set is the complete one, or the bitmap of its ids at the length that the leading fragment announces; it panics exactly when some id has no bit at that length |
| `Assembler.FullSetHasEveryId` | rbtl-rudp/src/net/protocol/fragment/frag_assembly.rs:211-219 | pigeonhole: a set with more fragments than its total, whose totals agree, holds every id exactly once |
| `Assembler.NeitherRejectedNorPanics` | rbtl-rudp/src/net/protocol/fragment/mod.rs:134-144 | joining such a set meets neither the rejection nor the assertions |
| `AssemblerRuns.ReachableValid` | rbtl-rudp/src/net/protocol/fragment/frag_assembly.rs:194-267 | in every run of pushes of arbitrary well-formed fragments, ticks and removals, every set is non-empty and files fragments under their own ids |
| `AssemblerRuns.PushNeverPanics` | rbtl-rudp/src/net/protocol/fragment/frag_assembly.rs:48-62 | in every reachable state, whatever fragment fills a set, none of the panics and assertions of the push path can fire, in any hash-map order |
| `AssemblerRuns.DeliveredOncePerLifetime` | rbtl-rudp/src/net/protocol/fragment/frag_assembly.rs:194-235 | between creation and removal of a set its message is output exactly once if it is complete and not at all otherwise |
| `AssemblerRuns.CompleteSetStays` | rbtl-rudp/src/net/protocol/fragment/frag_assembly.rs:108-125 | a complete set stays as it is until a tick at least 20 s after its completion |
| `AssemblerRuns.DeliveriesExactly` | rbtl-rudp/src/net/protocol/fragment/frag_assembly.rs:194-267 | over any run, a message has been output exactly as often as its complete set was forgotten, and once more if it is complete now |
| `AssemblerRuns.TwiceNeedsRemoval` | rbtl-rudp/src/net/protocol/fragment/frag_assembly.rs:108-112 | between two deliveries of one id a tick comes at least 20 s after the first |
| `AssemblerRuns.OnceWithoutRemoval` | rbtl-rudp/src/net/protocol/fragment/frag_assembly.rs:108-112 | over any stretch of a run without such a tick a message is output at most once |
| `AssemblerRuns.DeliveredTwice` | rbtl-rudp/src/net/protocol/fragment/frag_assembly.rs:238-267 | every one-fragment message can be delivered twice: its fragment, a tick 20 s later, the fragment again |
| `AssemblerRuns.AckBudget` | rbtl-rudp/src/net/protocol/fragment/frag_assembly.rs:246-261 | over one lifetime a set is acknowledged at most twice per accepted fragment, and never if it was opened without the key flag |
| `AssemblerRuns.AcksAfterCompletion` | rbtl-rudp/src/net/protocol/fragment/frag_assembly.rs:95-98 | after completion a set is acknowledged at most twice |
| `AssemblerRuns.AcksApart` | rbtl-rudp/src/net/protocol/fragment/frag_assembly.rs:246-257 | two acknowledgements with no completion between them are at least 50 ms apart |
| `AssemblerTimes.SetFields` | rbtl-rudp/src/net/protocol/fragment/frag_assembly.rs:194-213 | in every run, a set carries the time of its last fragment and the flags of its first one, and an incomplete one holds exactly the fragments pushed, the last of each id |
| `AssemblerTimes.FillsExactly` | rbtl-rudp/src/net/protocol/fragment/frag_assembly.rs:207-234 | a fragment that makes a set as full as it announces delivers the message, if the totals agree and a sealed message opens, and otherwise drops the set; any other leaves the set waiting |
| `AssemblerTimes.IncompleteDroppedExactly` | rbtl-rudp/src/net/protocol/fragment/frag_assembly.rs:108-125 | a tick drops an incomplete set exactly when the last push of one of its fragments was at least 1 s ago without the key flag, 5 s with it, 50 s with key and expire flag |
| `AssemblerTimes.CompleteDroppedExactly` | rbtl-rudp/src/net/protocol/fragment/frag_assembly.rs:108-112 | a tick drops a delivered set exactly when its delivery was at least 20 s ago |
| `AssemblerTimes.AcknowledgesExactly` | rbtl-rudp/src/net/protocol/fragment/frag_assembly.rs:246-261 | a tick acknowledges a set exactly when it keeps it, a key fragment opened it, fewer than two acknowledgements followed the last fragment filed, and the last one, since completion if it is complete, was at least 50 ms ago |
| `SentData.FlagsExactly` | rbtl-rudp/src/net/protocol/fragment/mod.rs:9-29 | the flag bits of a first send and of a repair |
| `SentDataTimes.DroppedExactly` | rbtl-rudp/src/net/sent_data_tracker.rs:219-241 | a tracked message goes exactly with a tick later than its expiration, counted from its send, or at least 5 s after the acknowledgement by which a repair round found it received |
| `SentDataTimes.TrackedUntilExpired` | rbtl-rudp/src/net/sent_data_tracker.rs:78-83 | a message never reported received is tracked after every step up to its expiration, and for ever without one |
| `SentDataTimes.ResendsExactly` | rbtl-rudp/src/net/sent_data_tracker.rs:59-75 | a tick sends a message again exactly when it is neither expired nor reported received, and the delay has passed since the last send, or four fifths of it since the first acknowledgement after that, or three fifths since the last one |
| `SentDataTimes.Conclusion` | rbtl-rudp/src/net/sent_data_tracker.rs:230-234 | a message is reported received exactly after a round whose last acknowledgement missed nothing, as of the time of that acknowledgement |
| `SentData.SentDataTracker.SendData` | rbtl-rudp/src/net/sent_data_tracker.rs:140-182 | sends the fragments of a plain message in order and tracks it iff it is a key message; a refused message changes nothing |
| `SentDataRuns.ReportedExactlyAfterEmptyRound` | rbtl-rudp/src/net/sent_data_tracker.rs:188-193 | a tracked message is reported received exactly when, since it was sent, some repair round found that the last acknowledgement before it missed nothing |
| `SentData.SentDataTracker.ReceiveAck` | rbtl-rudp/src/net/sent_data_tracker.rs:195-216 | records the acknowledgement and the time span of unanswered ones; unknown ids are ignored |
| `SentData.SentDataTracker.NextTick` | rbtl-rudp/src/net/sent_data_tracker.rs:219-241 | the exact new table and, message by message, the fragments sent, whatever the iteration order |
| `SentData.AttemptResendPackets` | rbtl-rudp/src/net/sent_data_tracker.rs:59-75 | a repair round runs exactly at the resend time |
| `SentData.ResendPackets` | rbtl-rudp/src/net/sent_data_tracker.rs:86-125 | sends what the last acknowledgement misses, or all, and reports completion exactly when it misses nothing |
| `SentDataRuns.TimesStayOrdered` | rbtl-rudp/src/net/sent_data_tracker.rs:195-216 | in every run with a monotone clock, unanswered acknowledgements never precede the last send |
| `SentDataRuns.RoundTiming` | rbtl-rudp/src/net/sent_data_tracker.rs:59-75 | a round comes at least floor(3/5 of the delay) after the last send; a live message past its delay is always resent |
| `SentDataRuns.RoundsSpaced` | rbtl-rudp/src/net/sent_data_tracker.rs:122-123 | each round moves the last send on by at least the spacing |
| `SentDataRuns.RoundsInWindow` | rbtl-rudp/src/net/sent_data_tracker.rs:219-241 | the number of rounds in any time window has an explicit bound |
| `Delivery.AbsorbGenuine` | rbtl-rudp/src/net/protocol/fragment/frag_assembly.rs:194-235 | pushing a genuine fragment outputs the message exactly when its last missing fragment arrives |
| `Delivery.ResentGenuine` | rbtl-rudp/src/net/sent_data_tracker.rs:86-121 | repaired fragments carry the same id, total and bytes as the first ones |
| `Delivery.GeneratedIsTruthful` | rbtl-rudp/src/net/protocol/fragment/frag_assembly.rs:75-88 | an acknowledgement that misses nothing comes from a complete set, outside the gap |
| `Delivery.RunKeepsInv` | rbtl-rudp/src/net/socket.rs:259-366 | the invariant linking sender tables, every packet ever sent, receiver sets, acknowledgements and outputs holds in every run over a lossy, duplicating, reordering network |
| `Delivery.Integrity` | rbtl-rudp/src/net/protocol/fragment/frag_assembly.rs:152-235 | end-to-end integrity: everything the receiver outputs for an id is the message accepted under that id |
| `Delivery.ReceivedMeansOutput` | rbtl-rudp/src/net/sent_data_tracker.rs:92-124 | a message the sender reports received has been output, unless it falls in the gap |
| `Delivery.ReceivedStays` | rbtl-rudp/src/net/sent_data_tracker.rs:188-241 | once reported received, a message stays so until it is forgotten, and its id is never tracked again |
| `DeliveryRepairs.KeyFlags` | rbtl-rudp/src/net/sent_data_tracker.rs:87-90 | the first fragments of a key message carry the key flag, repaired ones never do |
| `DeliveryRepairs.RepairsAloneAreNotAcknowledged` | rbtl-rudp/src/net/protocol/fragment/frag_assembly.rs:99-104 | in every run in which no fragment of a message as first sent arrives, the message is never acknowledged or reported received, however many repaired fragments arrive |
| `DeliveryRepairs.OutputUnheard` | rbtl-rudp/src/net/protocol/fragment/frag_assembly.rs:200-213 | a run in which such a message is output all the same |
| `DeliveryGap.TrustworthyExactlyOutsideGap` | rbtl-rudp/src/net/protocol/fragment/ack.rs:12-18 | the sender's report of a plain message is sound in every run for exactly the messages whose `frag_total` is 0 or no multiple of 8; for each other message a run betrays it |
| `DeliveryGap.GapByLength` | rbtl-rudp/src/net/protocol/fragment/frag_generation.rs:25-35 | the messages in the gap, by their length |
| `DeliveryGap.BetrayingRun` | rbtl-rudp/src/net/sent_data_tracker.rs:92-111 | for every message in the gap, a run in which the sender reports it received and it was never output |
| `DeliveryGap.MayPanicExactlyInGap` | rbtl-rudp/src/net/protocol/fragment/frag_assembly.rs:81-86 | in every run, a set of the receiver may panic exactly when it is incomplete and holds the last fragment of a message in the gap |
| `DeliveryGap.PanickingRun` | rbtl-rudp/src/net/protocol/fragment/ack.rs:64-73 | for every message in the gap, a run whose last step is the panic: the message is sent, only its last fragment arrives, and the receiver ticks |
| `DeliveryGap.PanicFreeExactlyOutsideGap` | rbtl-rudp/src/net/protocol/fragment/ack.rs:12-18 | no run panics on a plain message exactly when the message is outside the gap |
| `DeliveryGap.PanickedMeansGap` | rbtl-rudp/src/net/protocol/fragment/ack.rs:12-18 | a receiver of plain messages that has panicked was sent one in the gap |
| `Repair.RoundSendsAbsent` | rbtl-rudp/src/net/sent_data_tracker.rs:93-107 | a repair round answering the receiver's current acknowledgement sends exactly the absent fragments, in order, but for the last one in the gap |
| `Repair.RoundIsFresh` | rbtl-rudp/src/net/protocol/fragment/ack.rs:40-57 | those fragments are distinct, absent, and as many as are missing |
| `Repair.RepairRoundCompletes` | rbtl-rudp/src/net/protocol/fragment/frag_assembly.rs:194-235 | arriving in any order they output the original message at the last of them and not before; in the gap never |
| `Sealed.SendSealed` | rbtl-rudp/src/net/sent_data_tracker.rs:154-174 | the errors of encryption, the fragments of the sealed bytes, and the tracked set that keeps the plain bytes with the sealed total |
| `Sealed.SealedFieldsExactly` | rbtl-rudp/src/net/sent_data_tracker.rs:160-180 | the flags of sealed fragments, and every field of what is kept for repair |
| `Sealed.RepairPanicsExactly` | rbtl-rudp/src/net/sent_data_tracker.rs:86-98 | repairing an encrypted message panics exactly when the plain message is empty; with debug assertions, after an acknowledgement, exactly when sealing needed one more fragment, by length |
| `Sealed.JoinedSameExactly` | rbtl-rudp/src/net/protocol/fragment/mod.rs:146-153 | parts of equal sizes join to the same bytes exactly when they are the same |
| `Sealed.MixedReads` | rbtl-rudp/src/net/protocol/fragment/frag_assembly.rs:161-181 | the outcome of one full set of first and repaired fragments: the message iff every fragment of the other kind than the leading one has the same bytes in both, else dropped or wrong bytes, depending on the leading one |
| `Sealed.CrossingMixDropped` | rbtl-rudp/src/net/protocol/fragment/frag_assembly.rs:165-167 | where sealing needs one more fragment, a set with fragments of both kinds is always dropped |
| `Sealed.MixedDeliversWrongBytes` | rbtl-rudp/src/net/protocol/fragment/frag_assembly.rs:161-181 | a concrete set of a 1200-byte message that delivers wrong bytes |
| `SealedRuns.RepairingIsPart` | rbtl-rudp/src/net/sent_data_tracker.rs:86-121 | the fragments that repair rounds of an encrypted message send are exactly the fragments of the plain message, without the encryption flag |
| `SealedRuns.KeptThroughout` | rbtl-rudp/src/net/sent_data_tracker.rs:195-216 | acknowledgements and rounds change neither the bytes kept nor their total, so this covers every round |
| `SealedRuns.AlwaysReadExactly` | rbtl-rudp/src/net/sent_data_tracker.rs:86-121 | over all runs fed with first and repaired fragments of an encrypted message, every full set is read as the message exactly when its length plus 16 is at most 1152 |
| `SealedRuns.NeverWrongExactly` | rbtl-rudp/src/net/sent_data_tracker.rs:86-121 | over all these runs, wrong bytes are never output exactly when the sealed message fits in one fragment or takes one more than the plain one, by length |
| `SealedRuns.MisreadingRun` | rbtl-rudp/src/net/protocol/fragment/frag_assembly.rs:161-181 | for each longer message, a run whose last step drops the set, or delivers wrong bytes where the totals are equal |
| `SealedDelivery.RunKeepsInv` | rbtl-rudp/src/net/sent_data_tracker.rs:195-216 | the invariant of the sender's kept bytes, every packet ever sent and the receiver's set, in every run of one encrypted message |
| `SealedReports.ReportTrustworthyExactly` | rbtl-rudp/src/net/sent_data_tracker.rs:92-124 | in all runs the sender's report of an encrypted message is right exactly when the message with its 16-byte tag fits in one fragment |
| `SealedReports.CrossingMisreport` | rbtl-rudp/src/net/sent_data_tracker.rs:89-111 | where sealing takes one more fragment, a run in which the sender reports the message received after all but the last fragment arrived |
| `SealedReports.MisreadMisreport` | rbtl-rudp/src/net/protocol/fragment/frag_assembly.rs:161-181 | where it takes several and no more, a run in which wrong bytes are output and the message is reported received |
| `SealedPanics.ReceiverPanicFreeExactly` | rbtl-rudp/src/net/protocol/fragment/ack.rs:64-73 | in all runs the receiver's tick is free of panics exactly when neither the plain nor the sealed bytes take 8k + 1 fragments for some k > 0 |
| `SealedPanics.PanickingRun` | rbtl-rudp/src/net/protocol/fragment/frag_assembly.rs:81-86 | for every other message, a run that ends in this panic |
| `SealedDelivery.SenderPanicFreeExactly` | rbtl-rudp/src/net/sent_data_tracker.rs:86-98 | in all runs the sender's tick is free of panics exactly when the message is not empty |
| `BigEndian.CopyInto` | rbtl-rudp/src/net/protocol/packet.rs:64-82 | copies a slice into the buffer and leaves the rest alone |
| `Packet.WriteFrags` | rbtl-rudp/src/net/protocol/packet.rs:65-68 | writes the two bytes that tell the variants apart, and nothing behind them |
| `Packet.WriteVariant` | rbtl-rudp/src/net/protocol/packet.rs:84-124 | the payload, flags and kind of every variant end up at their offsets, without overwriting each other |
| `Packet.ToBytes` | rbtl-rudp/src/net/protocol/packet.rs:84-130 | the buffer is the layout of the packet: checksum, identities, kind, flags, payload |
| `Packet.WireFields` | rbtl-rudp/src/net/protocol/packet.rs:45-62 | the length computed beforehand is that of the layout, and each field can be read at its offset |
| `Packet.VariantBytes` | rbtl-rudp/src/net/protocol/packet.rs:84-124 | the bytes of each kind of packet, offset by offset, with words read as big-endian numbers |
| `Packet.ParseAfterPrint` | rbtl-rudp/src/net/protocol/packet.rs:142-209 | the parser gives back what was printed, for every packet, exactly when a fragment's id is not beyond its total |
| `Packet.PrintAfterParse` | rbtl-rudp/src/net/protocol/packet.rs:142-209 | printing what was parsed gives back the bytes exactly when it is a fragment, or has no flags and no trailing bytes |
| `PacketRuns.NetworkTransparent` | rbtl-rudp/src/net/protocol/packet.rs:354-366 | in every run of the delivery engine, every packet on the network fits the 1400-byte receive buffer and is parsed back to itself |
| `PacketRuns.ControlTransparent` | rbtl-rudp/src/net/protocol/packet.rs:100-123 | handshake, heartbeat and end packets fit in 48 bytes and are parsed back |
| `Connection.LifeKeeps` | rbtl-rudp/src/net/inner.rs:47-56 | through any operations and any packets, agreed keys never change, connecting is never resumed, and a finished connection stays finished |
| `Connection.ConnectsOnce` | rbtl-rudp/src/net/socket.rs:185-192 | a socket connects at most once in its life, and its user is told exactly once |
| `Connection.SilenceBrokenByTerminateOnly` | rbtl-rudp/src/net/inner.rs:112-118 | a disconnected socket sends nothing, and leaves that state exactly when its user terminates it again |
| `ConnectionTimes.TimesOutExactly` | rbtl-rudp/src/net/socket.rs:335-340 | a tick ends an unfinished connection, and tells its user, exactly when nothing was received since its creation or the last packet for the whole timeout delay |
| `ConnectionTimes.FinishedExactly` | rbtl-rudp/src/net/socket.rs:225-306 | a connection is over exactly when its user ended it, its peer's End or Abort was received or it timed out, and with which status since when |
| `ConnectionTimes.EndingsTold` | rbtl-rudp/src/net/socket.rs:185-192 | the user is told of each ending exactly once |
| `ConnectionTimes.ConnectsExactly` | rbtl-rudp/src/net/socket.rs:288-300 | a connecting socket connects exactly with a SynAck addressed to it, and takes the key from there |
| `ConnectionTimes.SynAgainExactly` | rbtl-rudp/src/net/socket.rs:350-360 | a tick sends the Syn again exactly while connecting, without a timeout, more than 3 s after the last one |
| `ConnectionTimes.AnswersExactly` | rbtl-rudp/src/net/socket.rs:282-287 | a packet is answered only if it is a Syn, and then with a SynAck unless the socket is disconnected |
| `ConnectionTimes.EndSentExactly` | rbtl-rudp/src/net/socket.rs:225-238 | what ending and aborting send, unless the socket is disconnected |
| `RudpSocket.SealedArrives` | rbtl-rudp/src/net/socket.rs:264-271 | a sealed one-fragment message from the peer is opened under the shared key and handed to the user, and dropped without a key or if it does not open |
| `RudpSocket.AllFragmentsSent` | rbtl-rudp/src/net/inner.rs:278-291 | a socket that is not disconnected sends every fragment, in order |
| `RudpSocket.AllAcksSent` | rbtl-rudp/src/net/inner.rs:278-291 | and every acknowledgement |
| `RudpSocket.Socket.BeatExactly` | rbtl-rudp/src/net/socket.rs:346-349 | a connected socket sends a heartbeat exactly when it has sent nothing for longer than the delay |
| `RudpSocket.Socket.UpdateCachedNow` | rbtl-rudp/src/net/socket.rs:328-331 | moves the clock; one that has gone forward is later than every acknowledgement sent, which is what the assertion of the next tick asks |
| `RudpSocket.Socket.SetStatus` | rbtl-rudp/src/net/socket.rs:185-192 | the new status and the event that goes with it |
| `RudpSocket.Socket.SendPacket` | rbtl-rudp/src/net/inner.rs:278-291 | a packet leaves with both identities unless the socket is disconnected |
| `RudpSocket.Socket.SendData` | rbtl-rudp/src/net/socket.rs:212-222 | uses up the next id, accepted or refused; registering an id twice, a panic, takes at least 2^32 sends |
| `RudpSocket.Socket.SendEnd` | rbtl-rudp/src/net/socket.rs:225-229 | the End packet and the terminated status |
| `RudpSocket.Socket.Abort` | rbtl-rudp/src/net/socket.rs:234-238 | the Abort packet and the terminated status |
| `RudpSocket.Socket.CheckPacketOrigin` | rbtl-rudp/src/net/socket.rs:243-257 | which packets are admitted, and what becomes of the others |
| `RudpSocket.Socket.AddPacket` | rbtl-rudp/src/net/socket.rs:259-312 | the complete effect of any packet on connection, assembler, tracker, events and output; an acknowledgement from the peer is recorded for its message at the socket's clock; the assembler's output queue is empty after every packet |
| `RudpSocket.Socket.AddReceivedBytes` | rbtl-rudp/src/net/socket.rs:537-547 | any bytes from the peer: the effect of the packet they print, or the raw event |
| `RudpSocket.Socket.InnerTick` | rbtl-rudp/src/net/socket.rs:333-366 | the complete effect of a tick, in order: acknowledgements, timeout, heartbeat or Syn, repairs, and silence when disconnected |
| `RudpSocket.Socket.Incoming` | rbtl-rudp/src/net/socket.rs:410-439 | a server-side socket: its keys, its secret, its SynAck and its Connected event |
| `RudpSocket.Socket.Connecting` | rbtl-rudp/src/net/inner.rs:151-167 | a client socket: its keys, no secret yet, and its Syn |
| `RudpLink.RunKeepsInv` | rbtl-rudp/src/net/socket.rs:259-366 | the invariant of two whole sockets that exchange printed packets over a lossy, duplicating, reordering network, in every run |
| `RudpLink.DataIsAccepted` | rbtl-rudp/src/net/socket.rs:266-272 | in every such run, each data event at one end is a plain message that the other end's `send_data` accepted |
| `RudpLink.ReceivedMeansEvent` | rbtl-rudp/src/net/socket.rs:204-206 | in every such run, outside the gap, an end that reports a message received is right: the other end has put it in its event queue |
| `RudpExchange.ReportedInSomeRun` | rbtl-rudp/src/net/socket.rs:204-366 | for every sendable message, in the gap or not, a run from the start in which the client connects, sends it, all fragments and the acknowledgement are taken, the other end has its event and the client reports it received (under a timeout delay above zero) |
| `RudpLink.SendTakesStep` | rbtl-rudp/src/net/socket.rs:212-222 | the send of a socket is a step of these runs |
| `RudpLink.TakeTakesStep` | rbtl-rudp/src/net/socket.rs:537-547 | reading any bytes is a step of these runs |
| `RudpLink.TickTakesStep` | rbtl-rudp/src/net/socket.rs:333-366 | a tick that does not panic is a step of these runs |
| `RudpLink.FinishTakesStep` | rbtl-rudp/src/net/socket.rs:225-238 | ending or aborting is a step of these runs |
| `Listener.Listener.ProcessOneIncoming` | rbtl-rudp/src/net/listener.rs:130-167 | a packet reaches only the socket of its source identity and address; a Syn from a new identity makes a socket; anything else is dropped or kept raw (the connection part of sockets) |
| `Listener.RoutesExactly` | rbtl-rudp/src/net/listener.rs:130-167 | a packet from a known source at its address is heard by its socket, by its own clock, and by no other; a Syn from an unknown source makes a connected socket; anything else changes nothing |
| `Listener.Listener.Process` | rbtl-rudp/src/net/listener.rs:244-257 | old finished sockets go, by the clock they last saw, then the clock moves, arrivals are handled in order and the connection of every socket ticks |
| `Listener.Listener.Retain` | rbtl-rudp/src/net/listener.rs:245-247 | removes exactly the sockets that timed out or ended at least two seconds ago |
| `Listener.TicksTimeOutExactly` | rbtl-rudp/src/net/listener.rs:253-255 | a round of ticks times out exactly the unfinished sockets that heard nothing for the whole delay, by their own clocks |
| `Listener.Listener.TickRemotes` | rbtl-rudp/src/net/listener.rs:253-255 | the connection of every socket ticks exactly once, whatever the iteration order |
| `Handshake.RunKeepsInv` | rbtl-rudp/src/net/socket.rs:288-300 | the invariant over any number of clients, the listener and every packet ever sent, in every run |
| `Handshake.Agreement` | rbtl-rudp/src/net/socket.rs:288-300 | a connected client holds the key of a server-side socket made from its own Syn, and both hold the same secret |
| `Handshake.BirthsHappen` | rbtl-rudp/src/net/listener.rs:151-165 | every such socket was really put in the listener's table by a Syn from that client's address |
| `Handshake.LiveAgreement` | rbtl-rudp/src/net/inner.rs:34-36 | while the listener still has that socket, its current secret is the client's |
| `Handshake.ClientSettles` | rbtl-rudp/src/net/inner.rs:47-56 | along every run a client's agreed key and secret never change, it never goes back to connecting, and finished stays finished |
| `Handshake.ConnectedOnce` | rbtl-rudp/src/net/socket.rs:289-299 | in every run every socket, on either side, has connected at most once |
| `Handshake.Dialogue` | rbtl-rudp/src/net/listener.rs:130-167 | for any client, a run in which its Syn makes a socket, the answer connects it, and its End reaches that socket, whose user is told |
| `StreamIngester.ParseConcat` | rbtl-tcp/src/ingester.rs:24-130 | the whole-stream parser continues across any cut, unless an error stopped it |
| `StreamIngester.Ingester.TakeBytes` | rbtl-tcp/src/ingester.rs:24-130 | from every reachable state, errors included: terminates, never underflows or fails its length assertion, and yields the whole-stream parse of the bytes held and the chunk; a held header whose length is refused stays, and every chunk then yields its error once more and nothing else |
| `StreamIngester.Ingester.StuckExactly` | rbtl-tcp/src/ingester.rs:71-94 | such a header is left behind exactly when it came in pieces and its length is refused |
| `StreamIngester.Ingester.PendingDetermined` | rbtl-tcp/src/ingester.rs:29-129 | without an error the pending state is a function of the unparsed rest |
| `StreamIngester.Ingester.StartMessage` | rbtl-tcp/src/ingester.rs:152-164 | opening a data message: the header is read, or its length is refused |
| `TcpStream.EncodedThen` | rbtl-tcp/src/ingester.rs:24-130 | after any acceptable messages, an unknown message id or a refused length gives exactly one more result, the error; an unfinished message gives none |
| `TcpStream.EveryStreamSplits` | rbtl-tcp/src/ingester.rs:24-130 | every stream is a list of acceptable messages followed by nothing, an unfinished message or a broken one |
| `TcpStream.FailsExactly` | rbtl-tcp/src/ingester.rs:39-69 | parsing fails exactly when an unknown id or a refused length follows some acceptable messages |
| `TcpStream.IngestBroken` | rbtl-tcp/src/ingester.rs:24-130 | a fresh ingester that takes messages and then a broken one in one chunk yields exactly them and the error, and holds nothing |
| `TcpStream.MessageBytes` | rbtl-tcp/src/socket.rs:228-249 | the bytes of each kind of message, with words read as big-endian numbers |
| `TcpStream.TakeAll` | rbtl-tcp/src/socket.rs:206-226 | chunk independence: however a stream is cut, the results up to and including the first error are those of the whole-stream parser, and without an error so is the whole pending state |
| `TcpStream.EncodeData` | rbtl-tcp/src/socket.rs:236-249 | the buffer written for a message is its encoding |
| `TcpStream.EncodeStatus` | rbtl-tcp/src/socket.rs:229-234 | the buffer written for an acknowledgement is its encoding |
| `TcpStream.RoundTrip` | rbtl-tcp/src/socket.rs:228-249 | parsing the encoding of any acceptable messages gives exactly those messages and leaves nothing held; a final empty data message alone stays held |
| `TcpStream.IngestEncoded` | rbtl-tcp/src/socket.rs:206-249 | the bytes of any acceptable messages, cut into any chunks, are ingested as exactly these messages in order and leave nothing pending; a final empty data message alone stays pending |
| `TcpStream.PrefixParses` | rbtl-tcp/src/ingester.rs:24-130 | from any part of an encoded stream the first messages are parsed, without an error |
| `TcpSocket.Socket.SendData` | rbtl-tcp/src/socket.rs:394-399 | the id is used up with wrap-around; with a stream the encoding is written, without one nothing is and the error is returned |
| `TcpSocket.Socket.SetStatus` | rbtl-tcp/src/socket.rs:251-265 | a finished status is not replaced by another finished one |
| `TcpSocket.Socket.MaybeUpdateConnecting` | rbtl-tcp/src/socket.rs:317-324 | a connecting socket notices its stream once |
| `TcpSocket.Socket.ProcessIngesterResults` | rbtl-tcp/src/socket.rs:275-298 | every result takes effect once, in order |
| `TcpSocket.LastDecides` | rbtl-tcp/src/socket.rs:285-296 | the last error among the results decides the status and the last receipt the acknowledged id |
| `TcpSocket.ToldInOrder` | rbtl-tcp/src/socket.rs:277-292 | every message of data and every error among the results is told to the user, in order |
| `TcpSocket.Socket.Receive` | rbtl-tcp/src/socket.rs:337-341 | all waiting chunks are read, then handled: the effects of exactly the results they complete |
| `TcpSocket.ReadingTogether` | rbtl-tcp/src/socket.rs:206-226 | reading all chunks before handling any result comes to the same as handling each as it is read |
| `TcpSocket.Socket.IsSeqIdReceived` | rbtl-tcp/src/socket.rs:413-426 | received iff the last acknowledged id is this one or one of the next 2^31 - 2, counting with wrap-around |
| `TcpLink.ComparisonExactInWindow` | rbtl-tcp/src/socket.rs:422-423 | the wrapped comparison agrees with unbounded indices exactly in the window m - n <= 2^31 - 2 and n - m <= 2^31 + 1 |
| `TcpLink.RunKeepsInv` | rbtl-tcp/src/socket.rs:275-298 | the invariant of two sockets joined by ordered byte streams, in every run |
| `TcpLink.ReceiptRefinesIndices` | rbtl-tcp/src/socket.rs:413-426 | in every run in which neither end sends more than the other accepts, at both ends and within the window, message n tests as received iff more than n acknowledgements were handled, and then the other end has queued exactly that message as its event n |
| `TcpLink.StaysConnected` | rbtl-tcp/src/socket.rs:275-298 | in every such run both ends stay connected and their users see nothing but data |
| `TcpLink.SoundExactlyWithinLimits` | rbtl-tcp/src/ingester.rs:39-49 | receipts mean this in all runs exactly when neither end may send more than the other accepts |
| `TcpLink.MisleadingRun` | rbtl-tcp/src/ingester.rs:45-48 | for every limit, a run in which a message one byte too long makes its receiver take part of it for an acknowledgement |
| `Connector.Connector.CurrKind` | src/macr.rs:108-113 | the first protocol not done |
| `Connector.Connector.SetDone` | src/macr.rs:154-159 | marks exactly the first protocol not done |
| `Connector.Connector.Next` | src/macr.rs:115-152 | starts the first protocol, among those not done, that is available and starts; those before it are done |
| `Connector.AdvanceFindsFirst` | src/macr.rs:115-152 | some protocol is started exactly when one that is not done can be, and it is the first such |
| `Connector.New` | src/macr.rs:163-178 | a connector exists exactly when some protocol is available and starts, and it begins with the first such |
| `Connector.Connector.AttemptConnect` | src/macr.rs:185-216 | terminates; the done flags stay a prefix and the active client is that of the first protocol not done; the result of the polls |
| `Connector.AttemptDecides` | src/macr.rs:185-216 | a call hands out the first client it polls that has not failed if it is connected, waits for it if it is connecting, and reports failure exactly if there is none |
| `Connector.StartedOnceInOrder` | src/macr.rs:115-152 | over every sequence of calls, protocols are started in order and none twice |
| `Connector.FailureMeansAllRefused` | src/macr.rs:185-190 | before any success, failure is reported only after every protocol was passed over in some call that reached it, because it was unavailable, failed to start, or had its client fail when that call polled it |
| `Connector.SuccessIsFirst` | src/macr.rs:191-214 | a client handed out is connected and was started, and every protocol before it was passed over for such a reason in the call that reached it |
| `Connector.AfterSuccessOnlyFailure` | src/macr.rs:186-195 | after a client was handed out, every later call reports failure and starts nothing |
| `EventQueue.SharedEvents.Extend` | src/macr.rs:792-794 | the worker appends under the lock |
| `EventQueue.AsyncClient.NextEvent` | src/macr.rs:856-864 | the oldest waiting event; the buffers after the swap and the reversal |
| `EventQueue.AsyncClient.ReverseInPlace` | src/macr.rs:861 | reverses the buffer |
| `EventQueue.AsyncClient.DrainEvents` | src/macr.rs:842-850 | what is left in the user's buffer as it lies, or the swapped buffer |
| `EventQueue.OneWayInOrder` | src/macr.rs:842-864 | in every interleaving with the worker, a user of only one of the two calls gets the events in order: consumed, then the reversed buffer, then the shared one, make up what was produced |
| `EventQueue.DrainGetsAll` | src/macr.rs:842-850 | a user who only drains gets, with each drain, everything produced by then |
| `EventQueue.NextGetsNext` | src/macr.rs:856-864 | a user who only asks for the next event gets the next one produced as long as there is one |
| `EventQueue.TwoDrainsEmpty` | src/macr.rs:842-850 | whatever was mixed before, two drains leave nothing behind, and the user has got exactly what was produced |
| `EventQueue.Conserved` | src/macr.rs:842-864 | in every interleaving, mixed or not, no event is lost or made up |
| `EventQueue.MixedInOrderExactly` | src/macr.rs:842-864 | a mixed user gets the events in order exactly when every drain finds events that read the same backwards |
| `EventQueue.MixedGoesWrong` | src/macr.rs:842-864 | the shortest mix that comes out of order |

## Left out

- Operating-system sockets, threads, locks and their failures, including partial TCP writes: the model starts where a call has succeeded.
- SentData.SentDataTracker.SendData: plain messages only, because repair keeps the plain bytes; the `Sealed` modules cover encrypted sends and what their repairs make of them.
- RudpSocket.Socket.SendData: plain messages only, for the same reason.
- Delivery.Integrity: runs of plain messages and fewer than 2^32 sends; after that the code uses ids again, and panics on one that is still tracked.
- DeliveryGap.TrustworthyExactlyOutsideGap: plain messages only; `SealedReports.ReportTrustworthyExactly` says it of encrypted ones.
- DeliveryGap.PanicFreeExactlyOutsideGap: plain messages only; `SealedPanics.ReceiverPanicFreeExactly` says it of encrypted ones.
- DeliveryGap.PanickedMeansGap: plain messages only, likewise.
- SealedReports.ReportTrustworthyExactly: runs of one encrypted message, in a build without debug assertions; with them repair panics as `Sealed.RepairPanicsExactly` says.
- SealedPanics.ReceiverPanicFreeExactly: the same runs.
- SealedDelivery.SenderPanicFreeExactly: the same runs.
- RudpLink.ReceivedMeansEvent: runs as in `RudpLink.DataIsAccepted`, and messages outside the gap; for those in it `DeliveryGap.BetrayingRun` shows a run of the engine that misreports.
- RudpExchange.ReportedInSomeRun: the client sends, at time 0 and with a resend delay of 0; with a timeout delay of 0 every tick ends the connection.
- DeliveryRepairs.RepairsAloneAreNotAcknowledged: runs of plain messages, as in `Delivery`.
- RudpLink.DataIsAccepted: runs of plain messages and fewer than 2^32 sends at either end, as in `Delivery`; the run ends where an acknowledgement panics.
- TCP timeouts, a connection that fails and the choice of a status for an I/O error: plain case distinctions on the clock and the error kind.
- Listener.Listener.ProcessOneIncoming: the listener's sockets are values holding their connection part only; their assemblers and trackers are those of `RudpSocket`, which no other socket shares.
- Listener.Listener.Process: the same; acknowledgements, heartbeats and repairs of a socket's tick are in `RudpSocket.Socket.InnerTick`.
- Listener.Listener.TickRemotes: the same.
- The fragment and acknowledgement sets are values stored in their maps, so an update in place of a stored set is a store of the changed value.
- Fragments, acknowledgements and heartbeats in `Handshake` are sent at any time with any content; what they carry is the business of `Delivery`.
- `Drop` of a socket: it is the terminate operation of `Connection`, which a run may take at any time.
- The worker loop of the asynchronous client after a stop: it ends the client, processes ten more times and drains nothing.
- Ping trackers, connection-info codecs, configuration, logging, error texts, the forwarding methods of the macro and the adapters: no property beyond their bodies.
- Liveness under an unfair network: the code promises none; `Repair.RepairRoundCompletes` says what one fair round achieves.
