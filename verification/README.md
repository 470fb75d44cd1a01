# CPSW in Dafny

A Dafny model of the parts of CPSW that move data between a host and an FPGA, with proofs of what
they are for: the RSSI reliable transport, the packetizers of versions 0 and 2, the scalar value
pipeline, the buffer queue, and the byte- and list-level code below them.

`dafny verify dfyconfig.toml` checks everything.

## How the project is built

Code that changes things step by step is modelled by classes and methods over arrays and fields. Each
such method is proved against a function or a relation on values, and the properties are lemmas about
those functions and relations.

| part | modules | main results |
|---|---|---|
| reliable transport | RssiSegments, RssiEndpoint, RssiBuffers, RssiContext, RssiInvariant, RssiLink, RssiSystem, RssiTheorems, RssiArrivals, RssiEvents, RssiAgreement, RssiStray, RssiResets, RssiThread, RssiWitness, RssiRevival | `EndToEnd`, `Play`, `AnyOrder`, `ArrivalKept`, `AllDelivered`, `RexTimeoutSends`, `ArrivalSends`, `Agreement`, `RunsExactly`, `AckRemovesPrefix`, `WindowBound`, `ControlInvariant`, `ResetOutcome`, `RevivesExactly` |
| header checksum, timers | RssiChecksum, TimerList | `ChecksOut`, `ChangeNoticed`, `ArmAbs`, `FirstToExpire` |
| packetizer 2 | BitField, PackHeader, PackHeaderOps, Crc32, WireFormat, Packetizer, PacketizerOps, PacketizerPort, PacketizerRuns, PacketizerLoss, PacketizerNet, PacketizerWitness | `RoundTrip2`, `FragmentHeader`, `TableStep`, `SendFrag`, `PushDownstream`, `FramesArrive`, `LossyFrames`, `FooledExactly`, `CrcCarried` |
| packetizer 0 | Depack, DepackFrame | `CompleteProduct`, `CompleteIsWhole`, `WholeExactly`, `CompleteExactly`, `OrderDoesNotMatter` |
| scalar values | FieldCodec, FieldShift, FieldCodecOps, FieldWrite, FieldNumbers, ByteMemory, AlignedAccess | `DecodedIs`, `WrittenIs`, `NumberRoundTrip`, `Untouched`, `Decode`, `SetVal`, `WriteAligned` |
| buffers, queue | BufChain, BufferList, BoundedQueue, QueueProtocol, QueueProgress | `Insert`, `Extract`, `QueueSafety`, `QueueConservation`, `PushExactly`, `DownIsEmpty` |
| paths | PathText, PathLaws | `PrintParseExactly`, `BareName`, `SomeElements`, `ErrorsExactly` |

Shared: `Wrappers` (Option), `CircularIndex` (powers of two, wrapping indices), `Octets` and `Bits` (bits
of octets, numbers as bit strings).

### The transport

`RssiEndpoint` holds every handler as a function on an `Endpoint`, with histories beside the program's
fields: the items sent, the items received in order, the payloads taken from and handed to the user.
`RssiContext.CRssi` is the object whose fields the program updates; each of its methods ends in the
endpoint that the function computes. `RssiBuffers` has the two ring buffers with their free-running
32-bit indices. A `System` is a client, a server and two FIFO channels. A run is any sequence of
actions: a user writes or reads, one endpoint handles one enabled event, a channel loses any segment it
holds. An armed timer may expire at any moment, so nothing depends on the length of a time-out.
`RssiThread` takes the events to the methods of the object: whatever the functions do in a run, two objects
do as well (`Play`).

Three modules say what one event does in terms of what can be observed. `RssiArrivals` follows the items
that a receiver holds, in order or waiting in its window, and shows that selective repeat delivers
whatever the order of arrival. `RssiEvents` gives the segments that every event puts on the wire.
`RssiAgreement` shows that the two ends agree on window and limits.

Assumptions: one connection epoch, that is, a closed endpoint stays closed; user payloads are not empty
(a DAT segment without data cannot be told from an acknowledgement, `DeliveredExactly`); the peer's retransmission limit is
at least 1. What goes wrong otherwise is stated exactly. `RevivesExactly` says when an endpoint that
sends an RST is not closed afterwards, which needs a limit of 0, and `RssiRevival` is a run that gets there.
The comment on that field says that 0 means to go on for ever; the code gives up at the first time-out
(src/cpsw_rssi_states.cc:435-446), and assertValid accepts 0.

Three properties that one would expect do not hold, and each has its exact condition and a run that shows
it. An endpoint that gives up before it has heard its peer acknowledges whatever number is in memory, so
that the peer may discard a segment that nobody has taken in (`RunsExactly`, `StrayHappens`). A received RST
does not always close an endpoint (`ResetOutcome`, `ResetSurvived`). A time-out that comes before the
connection is up meets a handler that throws (`ControlInvariant`, `TimerTooEarly`).

`RingBuf::push` compares with `>` where `>=` is meant, so the guard alone does not keep a push from
overwriting the oldest segment (src/cpsw_rssi.h:381-392). `RssiBuffers.RingBuf.Push` states what happens
in that case and `WindowBound` shows that it does not arise.

### The packetizers

Octets are bit vectors of width 8. A fragment is described by what is on the wire (`IsFragment`); a port
is described by what it does with the flat octets it gets (`Receive`). `PacketizerRuns` lets any number of
ports interleave their fragments on one reliable wire; in `PacketizerNet` the wire may lose any of them.
The 16-bit fragment number does not notice every loss. A port is fooled if and only if the fragments that
it takes for a frame skip a multiple of 2^16, or join the beginning of one frame to the end of a later one
at a matching number (`FooledExactly`); two frames of two fragments each are enough (`JoinHappens`). The contents of padding are arbitrary. For version
0 the frame slot is modelled with its fragment window; `got`, a map from fragment numbers to octets,
records which fragments have been accepted.

### Scalar values

`Decoded` and `Written` say which memory bits are the value of a field; the loops that shift, swap,
sign-extend and move octets in place are proved against them on a little-endian host. `FieldNumbers` says
the same with division and remainder on the number in memory. Memory is accessed
with edge masks as `write_func8` does, and the aligned word access leaves the same memory.

## Model

| member | source | states |
|---|---|---|
| RssiTheorems.EndToEnd | src/cpsw_rssi_states.cc:126-299 | In every run of two endpoints over channels that lose any segments, what each user has read, and what was handed on to it, is a prefix of what the other has written and had taken, although only 8-bit numbers travel |
| RssiTheorems.DiscardedWasDelivered | src/cpsw_rssi_states.cc:510-562 | What a sender has discarded was taken in and handed on by its peer, and a peer acknowledges exactly up to the front of its reassembly buffer, also while its output queue is full and after it has given up; except if it gave up before it had heard anything |
| RssiArrivals.ArrivalKept | src/cpsw_rssi_states.cc:203-233 | An admitted payload or NUL whose number is inside the window, next in line or not, is afterwards held under its own index, taken in already or waiting; all that can be handed on has been; any other arrival changes nothing that the receiver holds |
| RssiArrivals.AnyOrder | src/cpsw_rssi.h:414-457 | When the next items have each arrived at least once, in any order and with any repetition within one window, all of them have been taken in, and with room in the output queue their payloads have been handed on in order |
| RssiArrivals.DrainSame | src/cpsw_rssi_states.cc:510-562 | Draining loses no item and stops only where the next one is missing or the output queue is full |
| RssiEvents.RexTimeoutSends | src/cpsw_rssi_states.cc:435-462 | Below the limit a retransmission time-out puts exactly the kept segments on the wire, oldest first, with the current acknowledgement number, and the timer runs again unless the peer is busy; at the limit it sends one RST and closes |
| RssiEvents.RepeatedItems | src/cpsw_rssi_states.cc:447-461 | The j-th repeated segment carries the j-th item that has not been acknowledged, under its number |
| RssiEvents.ArrivalSends | src/cpsw_rssi_states.cc:198-284 | How an admitted segment is answered once the handshake is over: the release of the busy flag repeats what is left, or gives up at the limit; more unacknowledged segments than the limit are answered with exactly one segment, which carries the next payload if the window has room; otherwise nothing is sent and the first one starts the timer |
| RssiEvents.ArrivalMoves | src/cpsw_rssi_states.cc:301-323 | In which state an arrival leaves an endpoint once the handshake is over |
| RssiEvents.UnadmittedIgnored | src/cpsw_rssi_states.cc:175-195 | A segment that is not admitted is not answered and changes no more than the state |
| RssiEvents.AckTimeoutSends | src/cpsw_rssi_states.cc:576-583 | An acknowledgement time-out sends exactly one segment, with the next payload if it may be sent |
| RssiEvents.InputSends | src/cpsw_rssi_states.cc:480-491 | As many payloads as the window has room for leave the input queue in order, under the next numbers, and are kept; a full window stops the input handler |
| RssiEvents.OutputSends | src/cpsw_rssi_states.cc:493-508 | Resuming delivery hands on all it can and acknowledges unless it stops again for lack of room |
| RssiEvents.NulTimeoutSends | src/cpsw_rssi_states.cc:464-478 | A server gives up with an RST; a client sends and keeps a NUL, or acknowledges and stops its input when the window is full |
| RssiEvents.StartSends | src/cpsw_rssi_states.cc:74-91 | A server listens in silence; a client sends and keeps one SYN that announces its configuration |
| RssiEvents.ListenSends | src/cpsw_rssi_states.cc:325-390 | A listening server takes over window and number of a SYN and answers with one SYN that announces its own limits; an RST inside the window closes it, anything else is ignored |
| RssiEvents.GreetSends | src/cpsw_rssi_states.cc:325-390 | A waiting client refuses a SYN without acknowledgement; otherwise it takes over the server's window, limits and number, acknowledges at once, and is through exactly if its own SYN is acknowledged |
| RssiEvents.AckNames | src/cpsw_rssi.h:364-379 | An acknowledgement of the k-th kept number removes the first k segments |
| RssiEvents.AckNamesNone | src/cpsw_rssi.h:364-379 | One of a number that no kept segment carries removes nothing |
| RssiAgreement.Agreement | src/cpsw_rssi.cc:637-700 | In every state of every run the client, once it has heard of the server, works with the server's limits and window, and the server with its own limits and the client's window |
| RssiStray.DiscardsExactly | src/cpsw_rssi.cc:87-111 | In that case too, each step keeps the rule if and only if it does not take in an acknowledgement, from such a peer, of a number that the ring still holds |
| RssiStray.RunsExactly | src/cpsw_rssi.cc:87-111 | Over every run, nothing is discarded before it has been taken in if and only if no step of the run is of that kind |
| RssiStray.EventBase | src/cpsw_rssi.h:364-379 | Of all events only an admitted arrival takes segments off the ring, as many as its acknowledgement counts |
| RssiWitness.StrayHappens | src/cpsw_rssi.cc:194-234 | A reachable state and one action that breaks the rule: a client's RST acknowledges the server's SYN, which the client has not seen |
| RssiTheorems.AllDelivered | src/cpsw_rssi.cc:87-111 | When a sender keeps nothing for retransmission, all it has taken from its user has been handed on at the other end, unless that end gave up before it had heard anything |
| RssiTheorems.NextIsDelivered | src/cpsw_rssi_states.cc:510-562 | An arriving payload that is next in line is handed on by the same event unless the output queue is full |
| RssiTheorems.DeliveredExactly | src/cpsw_rssi_states.cc:392-400 | A DAT segment that is next in line is handed on if and only if its payload is not empty |
| RssiTheorems.AckRemovesPrefix | src/cpsw_rssi.cc:87-111 | An arriving acknowledgement removes exactly the segments up to the one it names, all of which the peer has, also if the peer has given up meanwhile; with the same exception |
| RssiTheorems.WindowBound | src/cpsw_rssi_states.cc:480-491 | In every run the ring holds at most max(1, peer window) segments, never more than its capacity, numbered consecutively up to the last one sent |
| RssiTheorems.ControlInvariant | src/cpsw_rssi_states.cc:93-119 | Wherever an endpoint waits: input handler enabled exactly in OPEN, output handler only in the open states, NUL timer armed except in LISTEN; an enabled event meets a handler that throws if and only if it is an armed acknowledgement or NUL timer expiring before the connection is up; an endpoint that has sent an RST is closed |
| RssiWitness.TimerTooEarly | src/cpsw_rssi_states.cc:93-119 | A reachable state in which that happens: the client has sent its SYN |
| RssiResets.RevivesExactly | src/cpsw_rssi_states.cc:435-462 | An event makes an endpoint send an RST and leaves it not closed if and only if a full window is released by a segment that also releases the busy flag, leaves something unacknowledged, and the retransmission limit is 0 |
| RssiRevival.RevivalHappens | src/cpsw_rssi_states.cc:567-574 | A run of two endpoints, one with the limit 0, that ends in such an event |
| RssiResets.ResetOutcome | src/cpsw_rssi_states.cc:301-311 | A received RST closes an endpoint if and only if neither the waiting server's nor the full window's handler moves the state on afterwards |
| RssiWitness.ResetSurvived | src/cpsw_rssi_states.cc:301-311 | A reachable state in which an arriving RST leaves the server in PREP_OPEN |
| RssiSystem.NextInv | src/cpsw_rssi_states.cc:74-119 | Every user action, event and loss keeps the invariant of both endpoints and both channels |
| RssiSystem.RunInv | src/cpsw_rssi_states.cc:74-119 | The invariant holds after every run |
| RssiSystem.RxKeeps | src/cpsw_rssi_states.cc:126-299 | Receiving any segment in any waiting state keeps both directions of the connection consistent and loses no payload |
| RssiSystem.RexKeeps | src/cpsw_rssi_states.cc:435-462 | So does a retransmission time-out, which may also give up |
| RssiSystem.InputKeeps | src/cpsw_rssi_states.cc:480-491 | So does sending from the input queue until the window is full |
| RssiSystem.OutputKeeps | src/cpsw_rssi_states.cc:493-508 | So does resuming delivery when the output queue has room |
| RssiSystem.StartKeeps | src/cpsw_rssi_states.cc:74-91 | So does opening a connection |
| RssiSystem.LossKeeps | src/cpsw_rssi_states.cc:126-299 | So does the loss of any segment in flight |
| RssiLink.AckExact | src/cpsw_rssi.h:364-379 | On a FIFO channel the count of segments that an 8-bit acknowledgement removes is the distance between the unbounded indices |
| RssiLink.StoreData | src/cpsw_rssi.h:414-457 | A segment in the reassembly window is stored under the unbounded index it was sent with |
| RssiLink.DrainData | src/cpsw_rssi_states.cc:510-562 | Draining appends to the received items exactly the next items of the sender |
| RssiSegments.WindowSound | src/cpsw_rssi.cc:702-715 | With a window of at most half the number space an 8-bit offset inside the window determines the index |
| RssiInvariant.TxAck | src/cpsw_rssi.h:364-379 | Acknowledging keeps ring and send history consistent |
| RssiInvariant.DrainLoopOk | src/cpsw_rssi_states.cc:510-562 | Draining hands on payloads in order and keeps the receiving half consistent |
| RssiInvariant.ProcessRexLocal | src/cpsw_rssi_states.cc:435-462 | Retransmission sends only what the ring holds and keeps the endpoint consistent |
| RssiBuffers.RingBuf.Pop | src/cpsw_rssi.h:272-285 | Removes and returns the oldest segment of the abstract queue |
| RssiBuffers.RingBuf.Ack | src/cpsw_rssi.h:364-379 | Drops the acknowledged prefix and returns its length; -1 if the number is outside |
| RssiBuffers.RingBuf.Push | src/cpsw_rssi.h:381-392 | Appends the segment while there is room; states what an overfull ring does |
| RssiBuffers.RingBuf.Resize | src/cpsw_rssi.h:394-411 | A larger capacity, same segments, same numbers |
| RssiBuffers.RingBuf.Deref | src/cpsw_rssi.h:324-352 | The iterator reads the k-th segment, also across the wrap of the indices |
| RssiBuffers.ReassembleBuf.CanAccept | src/cpsw_rssi.h:425-429 | Accepts exactly the numbers within one window of the oldest |
| RssiBuffers.ReassembleBuf.Store | src/cpsw_rssi.h:431-444 | Fills the slot of its number once and no other slot |
| RssiBuffers.ReassembleBuf.Pop | src/cpsw_rssi.h:272-285 | Takes the segment at the front and moves the window by one |
| RssiContext.CRssi.SendBuf | src/cpsw_rssi.cc:194-234 | The object sends the stamped segment as the specification does |
| RssiContext.CRssi.SendSYN | src/cpsw_rssi.cc:359-443 | Same for the SYN and its initial sequence number |
| RssiContext.CRssi.SendNUL | src/cpsw_rssi.cc:326-356 | Same for the keep-alive: a NUL that is kept while the window has room, an acknowledgement otherwise |
| RssiContext.CRssi.SendDAT | src/cpsw_rssi.cc:272-281 | Same for a user payload |
| RssiContext.CRssi.ProcessAck | src/cpsw_rssi.cc:87-111 | Same for an acknowledgement number |
| RssiContext.CRssi.ExtractConnectionParams | src/cpsw_rssi.cc:637-700 | Same for the negotiated parameters |
| RssiContext.CRssi.HandleSYN | src/cpsw_rssi_states.cc:325-390 | Same for SYN segments in every state |
| RssiContext.CRssi.HandleOTH | src/cpsw_rssi_states.cc:392-427 | Same for other segments in every state |
| RssiContext.CRssi.DrainReassembleBuffer | src/cpsw_rssi_states.cc:510-562 | Same for handing on what is in order |
| RssiContext.CRssi.HandleRxEvent | src/cpsw_rssi_states.cc:126-311 | Same for a received segment, including the waiting server and the full window |
| RssiContext.CRssi.HandleUsrInputEvent | src/cpsw_rssi_states.cc:480-491 | Same for user input |
| RssiContext.CRssi.HandleUsrOutputEvent | src/cpsw_rssi_states.cc:493-508 | Same for room in the output queue |
| RssiContext.CRssi.ProcessRetransmissionTimeout | src/cpsw_rssi_states.cc:435-462 | Same for the retransmission time-out |
| RssiContext.CRssi.ProcessAckTimeout | src/cpsw_rssi_states.cc:576-583 | Same for the acknowledgement time-out |
| RssiContext.CRssi.ProcessNulTimeout | src/cpsw_rssi_states.cc:464-478 | Same for the NUL time-out of server and client |
| RssiContext.CRssi.CloseAndOpen | src/cpsw_rssi.cc:154-191 | Closing and opening empty queues and buffers and clear timers as the specification says |
| RssiContext.CRssi.AdvanceClosed | src/cpsw_rssi_states.cc:74-91 | Leaving CLOSED: a server listens, a client sends its SYN |
| RssiThread.Dispatch | src/cpsw_rssi_states.cc:74-119 | In every state that the invariant allows, the object meets the preconditions of the handler of each enabled event, and the handler ends in the endpoint of the corresponding step of a run |
| RssiThread.Play | src/cpsw_rssi_states.cc:74-119 | Two objects, their users and a lossy network go through any run as the endpoints do, so what a user has read is a prefix of what the other has written |
| RssiChecksum.ChecksOut | src/cpsw_rssi_proto.h:110-114 | For every even header length and content the checksum of a header with its checksum written is 0 |
| RssiChecksum.ChangeNoticed | src/cpsw_rssi_proto.h:42-53 | Replacing one word of a good header leaves the checksum 0 if and only if the change, including what the checksum covers more or less if the word holds the size, is 0 modulo 65535 and not all that is covered is zero; with the size unchanged, if and only if old and new word are congruent |
| RssiChecksum.FoldedMod | src/cpsw_rssi_proto.h:50-52 | Folding carries keeps the sum modulo 65535 and maps only 0 to 0 |
| RssiChecksum.RssiHeader.Cs | src/cpsw_rssi_proto.h:42-54 | The two loops compute the folded one's complement sum; the 32-bit sum does not overflow |
| RssiChecksum.RssiHeader.WriteChksum | src/cpsw_rssi_proto.h:110-114 | After the call the checksum is 0 and only the checksum field has changed |
| TimerList.RssiTimerList.ArmAbs | src/cpsw_rssi_timer.h:90-104 | The timer is on the list once, behind all timers that expire no later and before all others; all else keeps its order and time |
| TimerList.RssiTimerList.Cancel | src/cpsw_rssi_timer.h:81-88 | The timer leaves the list, armed or not; the others keep their order |
| TimerList.RssiTimerList.IsArmed | src/cpsw_rssi_timer.h:115-118 | True exactly for timers on the list |
| TimerList.RssiTimerList.FirstToExpire | src/cpsw_rssi_timer.h:142-145 | An armed timer with the least expiration time; none if none is armed |
| TimerList.Unlink | src/cpsw_rssi_timer.h:81-88 | Relinking the neighbours leaves a doubly linked list without the element |
| TimerList.AddAfter | src/cpsw_rssi_timer.h:36-43 | Linking in leaves a doubly linked list with the element behind the given one |
| BitField.GetAfterSet | src/cpsw_proto_depack.cc:11-79 | A field reads back as the value modulo 2 to the field's size |
| BitField.GetAfterSetElsewhere | src/cpsw_proto_depack.cc:11-54 | Fields that do not overlap are not disturbed |
| BitField.SetNum | src/cpsw_proto_depack.cc:11-54 | The octet loop sets exactly the bits of the field, for every offset and size that fit 64 bits |
| BitField.GetNum | src/cpsw_proto_depack.cc:56-79 | The octet loop reads the field, for sizes up to 30 bits within four octets |
| PackHeader.FillGet | src/cpsw_proto_depack.h:220-231 | Of disjoint fields written one after the other every one can be read back |
| PackHeader.RoundTrip2 | src/cpsw_proto_depack.h:365-400 | Version 2: parse recovers every inserted field modulo its width; only the unreduced fragment number 0 is marked first |
| PackHeader.RoundTrip0 | src/cpsw_proto_depack.h:263-275 | Version 0: parse recovers every inserted field modulo its width |
| PackHeader.TailRoundTrip | src/cpsw_proto_depack.h:409-432 | Lane count, user bits and end-of-frame flag survive in the tail |
| PackHeader.CrcOctets | src/cpsw_proto_depack.h:442-446 | The checksum is stored most significant octet first |
| WireFormat.Header2Octets | src/cpsw_proto_depack.h:331-383 | Which octet of a version 2 header holds which bits of which field; all other bits are 0 but for the start-of-frame bit |
| WireFormat.Header0Octets | src/cpsw_proto_depack.h:239-249 | Which octet of a version 0 header holds which bits of which field |
| WireFormat.TailOctets | src/cpsw_proto_depack.h:342-351 | Which octet of a tail holds user bits, end-of-frame flag, lanes and checksum |
| WireFormat.FragmentHeader | src/cpsw_proto_depack.h:356-383 | The eight octets that every fragment begins with |
| WireFormat.LaneCount | src/cpsw_proto_depack.h:448-451 | Padding completes eight octets, and the lanes count the data in the last eight |
| PackHeaderOps.InsertV2 | src/cpsw_proto_depack.h:374-383 | In place; too short a buffer is refused and left alone |
| PackHeaderOps.ParseV2 | src/cpsw_proto_depack.h:365-372 | Nothing for an unknown version or too few octets |
| PackHeaderOps.InsertV0 | src/cpsw_proto_depack.h:263-267 | In place, as for version 2 |
| PackHeaderOps.ParseV0 | src/cpsw_proto_depack.h:269-275 | As for version 2 |
| PackHeaderOps.StartTail | src/cpsw_proto_depack.h:172-193 | The tail helpers leave exactly the described tail |
| Crc32.PolyTerms | src/cpsw_crc32_le.h:17-17 | The polynomial has the terms of IEEE 802.3 |
| Crc32.CheckValue | src/cpsw_crc32_le.cc:38-47 | The digits 1 to 9 have the published check value |
| Crc32.TableStep | src/cpsw_crc32_le.cc:18-28 | For every state and octet one table step equals eight bitwise steps |
| Crc32.BitwiseAppend | src/cpsw_crc32_le.cc:38-47 | Carrying the state over from one piece to the next equals one pass over all octets |
| Crc32.CpswCrc32Tbl.EntryOf | src/cpsw_crc32_le.cc:20-27 | The inner loop computes the table entry |
| Crc32.CpswCrc32Tbl.Crc | src/cpsw_crc32_le.cc:38-47 | The table-driven loop computes the bitwise CRC |
| Packetizer.ReceiveFragment | src/cpsw_proto_mod_tdestmux2.cc:304-418 | A port in step with the sender takes in exactly the data of a fragment, and the last one completes the frame |
| Packetizer.ReceiveExactly | src/cpsw_proto_mod_tdestmux2.cc:304-418 | That holds if and only if the fragment carries data; without any it counts as malformed and changes nothing |
| Packetizer.FragmentParses | src/cpsw_proto_mod_tdestmux2.cc:317-378 | What a port reads from a fragment is what the sender put there |
| Packetizer.FragmentSize | src/cpsw_proto_depack.h:448-451 | A fragment is a multiple of eight octets, less than 24 octets longer than its data |
| Packetizer.FragmentDest | src/cpsw_proto_mod_tdestmux2.cc:28-35 | The multiplexer finds the destination of a fragment |
| PacketizerOps.FragmentFits | src/cpsw_proto_mod_tdestmux2.cc:426-434 | A fragment with data fits the MTU below |
| PacketizerOps.TakeFitting | src/cpsw_proto_mod_tdestmux2.cc:80-96 | The longest run of head buffers that fits moves to the fragment; nothing is lost; the loop ends |
| PacketizerOps.CrcOver | src/cpsw_proto_mod_tdestmux2.cc:176-222 | The checksum over a chain's buffers is that of its flat octets |
| PacketizerOps.Work.SendFrag | src/cpsw_proto_mod_tdestmux2.cc:64-239 | The chain pushed is a well-formed fragment of the front of what was left; the rest remains; it is refused exactly if the head buffer alone exceeds the MTU |
| PacketizerPort.TrimEnd | src/cpsw_proto_mod_tdestmux2.cc:372-384 | The trim loop removes the given number of octets from the end, across buffers |
| PacketizerPort.Port.PushDownstream | src/cpsw_proto_mod_tdestmux2.cc:304-424 | The object does what `Receive` says on the flat octets, and counts it |
| PacketizerRuns.FramesArrive | src/cpsw_proto_mod_tdestmux2.cc:242-302 | In every interleaving of any number of ports each port delivers, whole and in order, a prefix of the frames its peer has taken, all of them when nothing is under way, and rejects no fragment |
| PacketizerLoss.NumberTest | src/cpsw_proto_mod_tdestmux2.cc:390-404 | A fragment that is not a first one is taken in if and only if something is assembled and its number follows the last one modulo 2^16; otherwise nothing is left assembled and nothing is delivered |
| PacketizerLoss.AfterOne | src/cpsw_proto_mod_tdestmux2.cc:304-418 | Whatever fragments arrive, a port has delivered exactly the data of those runs that count from 0 on up to a last fragment, and rejected every fragment that continues nothing |
| PacketizerLoss.CompleteExactly | src/cpsw_proto_mod_tdestmux2.cc:390-404 | Arrivals out of a stream of frames pass for a whole frame if and only if they start and end like one and each of them is the next fragment, or skips a positive multiple of 2^16 of the same frame, or joins a later frame at a matching number |
| PacketizerLoss.GaplessIsFrame | src/cpsw_proto_mod_tdestmux2.cc:406-418 | What passes for a frame without a gap is a frame that was sent, from its first fragment to its last |
| PacketizerLoss.FooledExactly | src/cpsw_proto_mod_tdestmux2.cc:395-395 | Something with a gap passes for a frame if and only if such a skip or join occurs in it |
| PacketizerLoss.InOrderUnlessFooled | src/cpsw_proto_mod_tdestmux2.cc:304-418 | Without that, all deliveries are frames that were sent, in the order in which they were taken |
| PacketizerLoss.WholeArrives | src/cpsw_proto_mod_tdestmux2.cc:406-418 | A frame all of whose fragments arrive is delivered, whatever is lost of the others |
| PacketizerNet.LossyFrames | src/cpsw_proto_mod_tdestmux2.cc:242-418 | All of this in every run of any number of ports on one wire that may lose any fragment |
| PacketizerWitness.JoinHappens | src/cpsw_proto_mod_tdestmux2.cc:395-395 | A run that loses two of four fragments and delivers a frame that was never sent |
| PacketizerRuns.CrcCarried | src/cpsw_proto_mod_tdestmux2.cc:176-228 | The checksum that ends a frame is the bitwise CRC of all its fragments without their last four octets |
| PacketizerRuns.FragmentCount | src/cpsw_proto_mod_tdestmux2.cc:76-96 | A frame has no more fragments than octets |
| Depack.AcceptInv | src/cpsw_proto_mod_depack.cc:286-379 | A stored fragment joins the accepted ones under a new number, a rejected one changes nothing; every accepted fragment is in order or waits in the slot of its number |
| Depack.ConsumedHolds | src/cpsw_proto_mod_depack.cc:42-54 | The chain update ends, keeps the invariant and stops at a missing fragment |
| Depack.CompleteIsWhole | src/cpsw_proto_mod_depack.cc:42-57 | Whatever the order, loss and duplication of a frame's fragments, a complete frame is all of them once, ascending |
| Depack.CompleteProduct | src/cpsw_proto_mod_depack.cc:369-377 | The product of a complete frame is the header of its first fragment, the data of all fragments in ascending order, and the tail of the last |
| Depack.WholeExactly | src/cpsw_proto_mod_depack.cc:55-56 | The only exception is a frame that uses all 2^24 fragment numbers: it is marked complete before its last fragment |
| Depack.CompleteExactly | src/cpsw_proto_mod_depack.cc:286-379 | With a window as long as the frame it is complete if and only if each of its fragments has arrived at least once, in whatever order |
| Depack.OrderDoesNotMatter | src/cpsw_proto_mod_depack.cc:286-379 | Two deliveries of one frame that complete give the same octets |
| Depack.InOrderCompletes | src/cpsw_proto_mod_depack.cc:286-379 | In order, a frame becomes complete with its last fragment and, but for that exception, not before |
| DepackFrame.CFrame.UpdateChain | src/cpsw_proto_mod_depack.cc:42-57 | The loop over the window does what the specification says |
| DepackFrame.CFrame.ProcessFragment | src/cpsw_proto_mod_depack.cc:286-379 | Same for an arriving fragment and each reason to drop it |
| DepackFrame.CFrame.Release | src/cpsw_proto_mod_depack.cc:26-40 | The slot is empty again |
| DepackFrame.CFrame.ReleaseOldest | src/cpsw_proto_mod_depack.cc:383-438 | The product is passed on exactly if the frame is complete |
| FieldCodec.CheckArgs | src/cpsw_sval.cc:132-180 | Accepted parameters are those the pipeline can handle |
| FieldCodec.RoundTrip | src/cpsw_sval.cc:1181-1318 | For every field a value that is set and read back is truncated to the field and extended to the size it is read with |
| FieldCodec.NumberRoundTrip | src/cpsw_sval.cc:1181-1318 | As numbers: modulo 2 to the size if unsigned, unchanged if it has no more bits than the field |
| FieldNumbers.DecodedIs | src/cpsw_sval.cc:798-892 | Without a word swap a value that is read is the number that the octets in memory spell in the given byte order, divided by 2 to the lsb and reduced to the width of the field, as two's complement if signed |
| FieldNumbers.DecodedTruncated | src/cpsw_sval.cc:798-892 | Read into fewer octets, its low bits |
| FieldNumbers.WrittenIs | src/cpsw_sval.cc:1181-1318 | Writing replaces just that part of the number in memory by the value modulo 2 to the width |
| FieldNumbers.WordOrder | src/cpsw_sval.cc:574-598 | With a word swap each word of the value lies in the mirrored word, its octets and bits in the same order |
| FieldCodec.Untouched | src/cpsw_mem_dev.cc:220-249 | Memory bits outside the field keep their values |
| FieldCodec.ExtendKeepsNumber | src/cpsw_sval.cc:542-571 | Zero and sign extension keep the number |
| FieldCodec.PlaceTwice | src/cpsw_sval.cc:574-598 | The word swap undoes itself |
| FieldShift.ShiftRight | src/cpsw_sval.cc:613-630 | The in-place loop moves all bits down |
| FieldShift.ShiftLeft | src/cpsw_sval.cc:632-650 | The in-place loop moves all bits up |
| FieldShift.Swap | src/cpsw_sval.cc:574-598 | The in-place loop reverses the words |
| FieldShift.SignExtend | src/cpsw_sval.cc:542-571 | The loop continues a number to the end of the element |
| FieldShift.ShiftedRightBit | src/cpsw_sval.cc:613-630 | Which bit ends up where |
| FieldShift.ShiftedLeftBit | src/cpsw_sval.cc:632-650 | Which bit ends up where |
| FieldShift.ExtendedBit | src/cpsw_sval.cc:542-571 | Bits of the number are kept, the others repeat the sign or are 0 |
| FieldCodecOps.DecodeElement | src/cpsw_sval.cc:847-888 | One element is decoded, also if source and destination overlap |
| FieldCodecOps.Decode | src/cpsw_sval.cc:798-892 | Every element of an array is decoded as if alone, also in place, for every element count |
| FieldWrite.EncodeElement | src/cpsw_sval.cc:1266-1304 | The bits of the value are put in the places of the field |
| FieldWrite.Encode | src/cpsw_sval.cc:1221-1305 | Every element of an array is encoded |
| FieldWrite.MaskBits | src/cpsw_sval.cc:1252-1260 | The two edge masks keep exactly the bits outside the field, for both byte orders |
| FieldWrite.MaskedIsWritten | src/cpsw_sval.cc:1252-1316 | A masked write of an encoded element changes the field and nothing else |
| FieldWrite.SetVal | src/cpsw_sval.cc:1181-1318 | Each element in memory takes its value and nothing else changes |
| ByteMemory.WriteFunc8 | src/cpsw_mem_dev.cc:220-249 | All octets are copied apart from the masked bits of the first and the last one |
| ByteMemory.MaskedCopyBit | src/cpsw_mem_dev.cc:220-249 | Masked bits come from memory, the others from the source |
| AlignedAccess.ReadAligned | src/cpsw_aligned_mmio.h:16-60 | Like a byte copy; every word that is read is aligned and holds a requested octet |
| AlignedAccess.WriteAligned | src/cpsw_aligned_mmio.h:62-125 | Memory ends up as after the byte-wise masked write; every word that is read or written is aligned and holds an octet of the destination |
| BoundedQueue.CBufQueueBase.BoundedPush | src/cpsw_queue.h:45-55 | Appends unless the queue is full |
| BoundedQueue.CBufQueueBase.Pop | src/cpsw_queue.h:33-43 | Removes the oldest item unless the queue is empty |
| QueueProtocol.QueueSafety | src/cpsw_bufq.cc:318-366 | With any number of threads neither inconsistency is ever thrown, items leave in the order in which they entered, none is lost |
| QueueProtocol.QueueConservation | src/cpsw_bufq.cc:103-166 | Slots, reservations and items add up at every moment, across failed attempts, shutdown and startup |
| QueueProtocol.DownIsEmpty | src/cpsw_bufq.cc:280-316 | After shutdown the queue is empty, nobody is between taking and using a slot, and no push can get one |
| QueueProgress.PushExactly | src/cpsw_bufq.cc:103-138 | In every run an attempt to push gets a slot if and only if items, reserved and unreturned slots, slots taken by shutdown and failures not undone yet are less than n together; so it may fail although there is room |
| QueueProgress.PopExactly | src/cpsw_bufq.cc:103-138 | An attempt to pop is promised an item if and only if there are more than are promised, not announced, or hidden by a failure not undone yet |
| QueueProgress.LonePush | src/cpsw_bufq.cc:318-366 | Without any other thread a push appends exactly if the queue is up and not full |
| QueueProgress.LonePop | src/cpsw_bufq.cc:318-366 | Without any other thread a pop takes the oldest item exactly if there is one |
| QueueProtocol.StepInv | src/cpsw_bufq.cc:103-166 | Every atomic step of every thread keeps the invariant |
| BufferList.CBufChain.AddAtTail | src/cpsw_buf.cc:236-260 | Appends; a buffer that is on a chain is refused; length and size follow |
| BufferList.CBufChain.AddAtHead | src/cpsw_buf.cc:335-353 | Prepends likewise |
| BufferList.CBufChain.Unlink | src/cpsw_buf.cc:297-367 | The first or last buffer leaves; the flat octets split accordingly; length and size follow |
| BufferList.CBufChain.SetSize | src/cpsw_buf.cc:175-188 | Resizes within the capacity; the chain's size follows |
| BufferList.CBufChain.SetPayload | src/cpsw_buf.cc:190-207 | Moves the payload within the buffer; the end moves if it must |
| BufferList.CBufChain.AdjPayload | src/cpsw_buf.cc:209-224 | Shifts the payload, or reports that it cannot |
| BufferList.CBufChain.Extract | src/cpsw_buf.cc:496-532 | Exactly the octets at the offset, as many as there are and were asked for |
| BufferList.CBufChain.Insert | src/cpsw_buf.cc:534-623 | At the end of a chain: the flat octets grow by the data, no buffer is filled beyond the limit, earlier ones stay as they were |
| PathText.PrintParse | src/cpsw_path.cc:410-427 | A printed path is looked up as the same path: entries, ranges, number of elements |
| PathText.PrintParseExactly | src/cpsw_path.cc:461-581 | That holds if and only if no entry has both an empty name and a single element |
| PathText.FindByName | src/cpsw_path.cc:461-581 | The scanning loop resolves the words between slashes one after the other, with its errors |
| PathLaws.LookupJoin | src/cpsw_path.cc:461-581 | Looking up "s/t" is looking up s and, from there, t; the first error counts |
| PathLaws.LookupSlashes | src/cpsw_path.cc:496-503 | Leading and trailing slashes do not count, and no text leads nowhere else |
| PathLaws.Up | src/cpsw_path.cc:507-515 | ".." is an error on an empty path and takes the last entry off any other |
| PathLaws.UpAgain | src/cpsw_path.cc:507-515 | Entering a child and then ".." gives the path back |
| PathLaws.BareName | src/cpsw_path.cc:553-574 | A bare name stands for all elements of the child, and multiplies the number of elements by theirs |
| PathLaws.OneElement | src/cpsw_path.cc:537-574 | "name[i]" stands for element i alone and is an error exactly if there is none |
| PathLaws.SomeElements | src/cpsw_path.cc:537-574 | "name[i-j]" stands for elements i to j and is an error exactly unless i <= j < nelms |
| PathLaws.ErrorsExactly | src/cpsw_path.cc:519-572 | Each error of a component with its exact condition: not below a device; does not read as a name with or without an index range, or the range is not one of its elements; no such child |
| PathLaws.OtherBases | src/cpsw_path.cc:448-459 | Indices behind "0x" are hexadecimal, behind "0" octal, and none may exceed INT_MAX |
| PathLaws.PrintedEntry | src/cpsw_path.cc:410-427 | The text that is printed for an entry: name, name[i] or name[i-j] |
| PathText.ToString | src/cpsw_path.cc:410-427 | The loop prints every entry with its range |
| PathText.AppendNum | src/cpsw_path.cc:319-332 | Inserting digits in front of each other gives the decimal number |
| PathText.DecimalNum | src/cpsw_path.cc:448-459 | A printed number is scanned as itself |

## Left out

- RssiTheorems.EndToEnd: one connection epoch; it says nothing about connections opened again on the same endpoints, and nothing about liveness (`AnyOrder` says what arrivals achieve, not that anything arrives).
- RssiTheorems.ControlInvariant: the handler that throws ends the thread, so a run has no step for an event that meets it.
- RssiContext.CRssi.SendSYN: the initial sequence number, taken from the clock by the program, is a parameter; the SYN's segment size, time-outs, version and connection id are not modelled.
- RssiContext.CRssi.ExtractConnectionParams: segment size, time unit and time-outs that a peer announces are not modelled, nor the exceptions for a size that is too small or a unit that does not fit.
- RssiContext.CRssi.SendBuf: the wire gets a copy of the segment; that a retained buffer and the one in flight share storage is not modelled, nor the exception for a segment larger than the peer accepts.
- PacketizerOps.Work.SendFrag: only ports that strip headers; with user-supplied headers and tails the program takes other branches. The header needs eight octets of headroom and a frame has fewer than 2^32 fragments.
- PacketizerPort.Port.PushDownstream: header and tail must each lie within one buffer; the program reads a tail that straddles two buffers from the wrong one (src/cpsw_proto_mod_tdestmux2.cc:340-347).
- PacketizerRuns.FramesArrive: frames with at least one octet; a frame without any is sent as one fragment, which its receiver rejects (`ReceiveExactly`).
- BitField.GetNum: fields of more than 30 bits, for which the program shifts a 32-bit 1 by too much.
- DepackFrame.CFrame.ReleaseOldest: the slot of the oldest frame; that the number of the oldest frame advances, and the counters, are not modelled.
- FieldCodec.CheckArgs: the checks on character encodings and on IEEE 754 fields.
- ByteMemory.WriteFunc8: the count that it returns.
- FieldCodecOps.Decode: a little-endian host.
- FieldWrite.SetVal: a little-endian host; the iteration over an address range is a base and a stride that keeps elements apart.
- BufferList.CBufChain.AddAtTail: a buffer that is on no chain is linked to no other buffer.
- BufferList.CBufChain.AddAtHead: a buffer that is on no chain is linked to no other buffer.
- BufferList.CBufChain.Unlink: a buffer in the middle of a chain, where the program clears the next pointer before it uses it (src/cpsw_buf.cc:359-366).
- BufferList.CBufChain.Insert: only at the end of a chain without empty buffers, where all callers use it; with empty buffers at the end the program re-initialises or unlinks them, the latter from the middle of the chain.
- RssiSystem: header parsing and checksum failures are losses of a segment; statistics, state-change events and the delay before re-opening are not modelled.
- RssiSystem: one queue operation of a user is one step here; its inner steps are those of QueueProtocol.
- QueueProtocol: notification and waking of sleeping threads; a waiting thread may try again or time out at any moment.
- Buffers hold their storage as a value, so moving a buffer between chains moves its contents; free lists and reference counts are not modelled. A buffer from the pool has arbitrary contents in the packetizer and zeros in BufferList, which no result depends on.
- Order of whole frames in version 0 and its fragmentation of output.
- The receiver's check of the version 2 checksum, which the program ignores.
- Register access over the network (SRP), range collapsing and the transaction manager.
- Sockets, threads, clocks, YAML and the Python bindings.
