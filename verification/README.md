# MCTP message transport: a Dafny model

This project models the core of the library, an implementation of MCTP (DSP0236 v1.3.0) over a
simulated shared-memory driver, and proves what its parts promise each other:

- the sender, which cuts a message into packets under a binding that may be busy or fail
  (`Fragmentation`, `Transmit`, `Buses`);
- the receiver, a fixed table of reassembly contexts with 2-bit sequence numbers (`Reassembly`,
  `Trains`, `Receive`), and how the two undo each other (`RoundTrip`) or notice losses (`Loss`,
  `LossSafety`, `Splices`);
- the request-tag allocator (`Tags`);
- the driver's pair of ring buffers (`Ring`, `Duplex`);
- the control responder and its type registry (`Control`, `EndpointSpec`), the endpoint that puts
  the pieces together over one heap of message buffers (`Endpoints`), and the two-bus bridge
  (`BridgeSpec`, `Bridges`).

Each part has a specification over values (state machines and their runs) and, where the C code
updates fields, arrays or buffers in place, a class whose methods are proved to take exactly the
steps of the specification. The theorems are about all runs of the specification.

Conventions:

- A binding's `tx` callback is an oracle `rcs: nat -> int`; `rcs(k)` is its k-th return code, so a
  statement for every `rcs` is one for every pattern of success, `-EBUSY` and other errors. The log
  of a binding holds decoded packets; `Packets.EncodeDecode` says that nothing is lost by that.
- "Delivered" is a call of `mctp_rx`. A received packet is its bytes from `start` to `end`, with the
  header at `start`.
- `size_t` arithmetic is mathematical in the specifications; where the code relies on comparing sums
  that can wrap, the method keeps the wrapping expressions and is proved equal to the mathematical
  check. Tag expiry times wrap at 2^64 as in the code.
- Counting functions are written as recursions that step by one packet or one number, and lemmas
  named `...ClosedForm` give the arithmetic: `Advance(s, k)` is `(s + k) % 4`, `Start(i)` is
  `i * mtu`.
- Table sizes, ring size, packet size and maximum message size are parameters that stay fixed. A ring
  is at most 2^31 bytes, so that no index sum leaves a 32-bit ULONG.

Where the natural claim is false of the code, the exact condition is proved instead:

- a message missing interior packets is delivered anyway if every run of lost packets is a multiple
  of four long, and only then (`Loss.ExactLoss`), and the head of one message is joined to the tail
  of the next under the same condition (`Loss.HeadMeetsTail`); `Splices.ArbitraryLoss` says exactly
  what is delivered whichever packets of a stream are lost;
- releasing a tag leaves it in use if and only if an expired slot with the same tag comes before the
  live one (`Tags.ReleaseFrees`), and `Tags.ReleaseCanMiss` gives a run that gets there;
- the removal loop of the type registry, which steps past the element it shifts into place, removes
  the type if and only if it never occurs twice in a row (`Control.SweepRemoves`), which holds of
  every reachable registry;
- a bus left with a message pending does not try again by itself: it offers a packet again if and
  only if it is disabled and later enabled (`Transmit.ResumesIffReenabled`), and `Transmit.BusyStalls`
  gives the inputs that leave it so.

The comment on `mctp_bus_rx` in `include/libmctp.h:213-216` says that it frees the packet buffer; the
code does not, and the model follows the code. The reply to a granted Set Endpoint ID request is sent
from the new EID, because the EID is set first (`src/control.c:37-54`);
`EndpointSpec.ResponseIsOnePacket` says so.

## Model

| member | source | states |
|---|---|---|
| `Packets.DecodeEncode` | src/core.c:598-602 | reading the header fields of a packet gives back what was written, for every packet |
| `Packets.EncodeDecode` | src/core.c:753-764 | every byte string of at least four bytes is the encoding of exactly the packet it decodes to |
| `Packets.OrIsSum` | src/core.c:756-764 | the flag byte or-ed together from shifted fields is the sum the model uses, for all field values |
| `Packets.MasksReadFields` | src/core.c:598-602 | the shifts and masks of the receive path read every field of that byte back |
| `Packets.EncodeLayout` | src/core.c:753-766 | version, destination, source and flag byte come in this order, then the payload |
| `Fragmentation.CountClosedForm` | src/core.c:742-747 | the number of packets is 1 for the empty message and ceil(len / mtu) otherwise |
| `Fragmentation.FragmentsCarryPrefix` | src/core.c:742-768 | the first i payloads of a message concatenate to its bytes before packet i |
| `Fragmentation.FragmentsCarryBody` | src/core.c:742-768 | the payloads of all packets of a message concatenate to the message |
| `Fragmentation.StreamNumbered` | src/core.c:785-785 | packet j of a stream of messages has sequence number (s0 + j) mod 4, across messages |
| `Transmit.AtPacket` | src/core.c:736-792 | the packet built at cursor i * mtu is the i-th fragment, defined by index, and completing it moves to i + 1 or ends the message |
| `Transmit.DrainConserves` | src/core.c:794-825 | whatever the binding answers, one drain moves packets from the front of the rest to the completed ones and loses none |
| `Transmit.RunConserves` | src/core.c:736-919 | in every run of sends and enable switches with any answers: completed packets followed by those still to come are exactly the packet stream of the messages taken |
| `Transmit.RunNumbered` | src/core.c:778-792 | in every run the bus sequence number is the start plus the number of completed packets, modulo 4 |
| `Transmit.CompletedNumbered` | src/core.c:778-792 | in every run completed packets carry consecutive sequence numbers modulo 4, across messages and binding errors |
| `Transmit.PendingPrefix` | src/core.c:785-791 | at every point the packets completed for the pending message are its first fragments |
| `Transmit.PendingBytes` | src/core.c:785-791 | and their payloads concatenate to its bytes up to tx_msgpos |
| `Transmit.RunRetries` | src/core.c:811-815 | in every run a packet refused with -EBUSY is offered again unchanged as the very next one |
| `Transmit.OffersOnlyWhenEnabled` | src/core.c:719-733 | packets reach the binding only on an enabled bus, when an idle bus takes a message or on a disabled-to-enabled switch |
| `Transmit.ResumesIffReenabled` | src/core.c:844-861 | in any run from an enabled bus with a message pending, a packet is offered if and only if some disable is later followed by an enable; until then nothing is taken and message, cursor and number stay |
| `Transmit.BusyStalls` | src/core.c:811-815 | any send on an idle enabled bus whose binding answers busy leaves the bus in such a state, with the whole message pending |
| `Transmit.NeverStarts` | src/core.c:836-842 | a binding whose packet size is below 68 never takes or offers anything in any run |
| `Transmit.ModeFollowsSwitch` | src/core.c:827-863 | in every run, whatever is sent and answered: a bus leaves the constructed state if and only if its packet size is at least 68 and it is enabled at some point; from then on it is enabled or disabled as the last switch says, idle or not |
| `Transmit.StartUp` | src/core.c:836-846 | a newly registered bus that is enabled and handed a message offers exactly its fragments to an accepting binding and is idle again |
| `Transmit.AnswerByCause` | src/core.c:872-918 | -ENXIO if and only if the bus is constructed, else -EINVAL if and only if the tag exceeds 7, else -EBUSY if and only if a message is pending, else 0; a refusal changes nothing, and a disabled bus keeps the message whole |
| `Transmit.AcceptedInFull` | src/core.c:794-825 | an idle enabled bus with an always-accepting binding offers exactly the fragments, once and in order, and is idle again |
| `Transmit.FragmentFlags` | src/core.c:758-764 | SOM is on the first packet only, EOM on the last only, numbers are consecutive modulo 4, and no packet exceeds pkt_size |
| `Reassembly.StepRefines` | src/core.c:155-201 | a packet steps the automaton of its own key and leaves every other key's context alone; one that opens a context with all slots busy changes nothing; at most one context per key |
| `Reassembly.NonInterference` | src/core.c:619-714 | in any run where no SOM packet finds the table full, each key's deliveries and context are those of its own automaton on its own packets |
| `Reassembly.FilteredRun` | src/core.c:619-714 | and so equal those of the same table run on that key's packets alone |
| `Trains.TableJustified` | src/core.c:619-713 | in any run at all, an open context holds exactly the train of packets its key's arrivals end with |
| `Trains.RelevantExactly` | src/core.c:155-170 | the packets reassembled for a key are exactly the arrivals of several-packet messages with its source, destination and tag |
| `Trains.DeliverySound` | src/core.c:650-714 | a multi-packet delivery is the concatenation of one SOM packet, same-size flagless packets and one EOM packet no larger, numbered consecutively modulo 4, consecutive for the key, within the limit, all with the source, destination and tag of the message |
| `Trains.DeliveryComplete` | src/core.c:650-714 | conversely every such train is delivered when its EOM packet arrives, if no SOM packet found the table full |
| `Trains.ContextsFit` | src/core.c:216-235 | in every reachable state every open context is within the maximum message size |
| `Trains.KeyRunIsTrains` | src/core.c:604-714 | for any packets of a key whatever, the deliveries are, packet by packet, the whole messages and the trains since the last SOM packet that fit |
| `Trains.BurstOutcome` | src/core.c:619-714 | a SOM packet, flagless packets and an EOM packet are delivered if and only if they are a train that fits, whatever context was open before |
| `Receive.WireRunIsRun` | src/core.c:577-596 | packets dropped by the size, source and destination filters leave no trace in any run |
| `Receive.FilterOnBytes` | src/core.c:577-617 | on the bytes: a packet shorter than 4, from 0xff or for another EID does nothing; any other with SOM and EOM set is delivered with source, destination, TO, tag and payload as the bytes say; the rest goes to the table |
| `Receive.InertIffDropped` | src/core.c:577-596 | a packet leaves every table unchanged and delivers nothing if and only if it is one of those |
| `Receive.WireDeliverySound` | src/core.c:577-714 | for arbitrary byte strings, whatever is handed up was carried whole by one packet or spelled out by consecutive packets of its key |
| `RoundTrip.MessageRun` | src/core.c:598-714 | what the packets of one message do to any table, exactly: delivered or not, which slot is used and freed, nothing else touched |
| `RoundTrip.StreamRun` | src/core.c:598-714 | with one free slot, a stream of messages for any keys is delivered message by message, except multi-packet ones over the limit |
| `RoundTrip.RoundTripAnySchedule` | src/core.c:736-863 | for every run of the sender, MTU, starting number and pattern of busy answers and switches, the bytes of the accepted packets make the receiver deliver exactly the finished messages, unchanged and in order, except multi-packet ones over its limit |
| `RoundTrip.Refragmentation` | src/core.c:544-560 | a message taken over from a single packet by an idle enabled bus with any valid MTU reassembles to the same source, destination, TO, tag and bytes, if and only if it fits one packet or the limit and a context is available |
| `Loss.ExactLoss` | src/core.c:650-713 | a message whose first and last packets arrive is delivered if and only if every run of lost packets is a multiple of four long and the rest fits; the bytes are those of the packets that arrived |
| `Loss.OneRunLost` | src/core.c:650-713 | with k consecutive interior packets lost: delivered if and only if k is a multiple of 4 and the rest fits, and then without exactly those bytes; no context is left either way |
| `Loss.RegularTrain` | src/core.c:650-713 | packets picked from a sender's run of packets, of whatever messages, are taken for one message if and only if their flags look like one and every run of skipped packets is a multiple of four long |
| `Loss.HeadMeetsTail` | src/core.c:650-681 | with the end of one message and the start of the next lost, the head and the tail are delivered as one message if and only if a multiple of four packets is missing and the result fits; the bytes and header fields it then has |
| `Splices.ArbitraryLoss` | src/core.c:604-714 | whichever packets of a stream of any messages arrive, exactly the splices of what arrived are delivered, in order: whole messages, and packets since the last SOM packet whose flags look like one message, with skipped runs in fours, that fit |
| `Splices.ArbitraryLossInTable` | src/core.c:155-201 | the same in a shared table with arbitrary other traffic, if no SOM packet finds it full |
| `Splices.AnyMask` | src/core.c:604-714 | the same for every loss mask |
| `Splices.ShortGapsNeverSplice` | src/core.c:604-714 | without four losses in a row, the splices are exactly the messages none of whose packets was lost |
| `LossSafety.StreamLoss` | src/core.c:619-714 | a stream of multi-packet messages on one key over a channel that never loses four packets in a row: exactly the messages whose packets all arrive are delivered, in order |
| `LossSafety.StreamLossInTable` | src/core.c:155-201 | the same in a shared table with arbitrary other traffic, if no SOM packet finds it full |
| `LossSafety.SenderErrors` | src/core.c:811-823 | the same from the sender to the automaton of the key, for every run of the sender with any busy answers and binding errors but no four completed packets failing in a row, the pending message included |
| `LossSafety.SenderErrorsInTable` | src/core.c:794-825 | and end to end into the receiver's shared table, with arbitrary other traffic, if no SOM packet finds it full |
| `Tags.AllocFails` | src/core.c:1009-1028 | allocation fails if and only if every slot is unexpired or the pair uses all eight tags, and then changes nothing |
| `Tags.AllocIssues` | src/core.c:1014-1024 | a success issues a tag the pair does not use, in a slot that was not live, leaving live slots alone |
| `Tags.AllocKeepsOthers` | src/core.c:1014-1024 | no other tag of any pair comes into use or goes out of it by an allocation |
| `Tags.IssuedLasts` | src/core.c:1018-1021 | a tag just issued is in use at a later time if and only if that is at most 6000 ms away |
| `Tags.IssuedStays` | src/core.c:969-1029 | over runs: a tag once issued stays in use, through any allocations and releases of other tags, until it expires or is released |
| `Tags.RunUnique` | src/core.c:969-1029 | under a clock that never goes back, after any run no two unexpired slots share local, remote and tag |
| `Tags.AtMostEight` | src/core.c:995-1007 | then any pair has at most eight unexpired tags |
| `Tags.IssuedWithinEight` | src/core.c:1014-1022 | if all allocations are for one pair, a tag that is free when the run starts is among the first eight issued, whether or not it is then held |
| `Tags.ReleaseFrees` | src/core.c:977-985 | after a release the tag is still in use if and only if the lowest matching slot was an expired duplicate of a live one |
| `Tags.ReleaseClearsOne` | src/core.c:969-987 | a release clears at most one slot, the first that holds the tag, and keeps the cursor; with local 0 it does nothing |
| `Tags.ReleaseKeepsOthers` | src/core.c:977-985 | every other tag, of this or any pair, is in use after the release exactly if it was before, at any time |
| `Tags.ReleaseCanMiss` | src/core.c:977-985 | a run from an empty table that reaches such a state |
| `Tags.TagTable.Scan` | src/core.c:995-1007 | the mask covers exactly the tags the pair uses and the spare slot is the last that is not live |
| `Tags.TagTable.AllocTag` | src/core.c:989-1029 | the table and cursor after the call, and the tag or -EBUSY |
| `Tags.TagTable.DeallocTag` | src/core.c:969-987 | the lowest matching slot is cleared, unless local is 0 |
| `Ring.PipeConserves` | windows_driver/MmbiDriver.c:54-125 | over every sequence of writes and reads, bytes read followed by bytes queued are the bytes accepted, and the queue never exceeds the size |
| `Ring.PushFills` | windows_driver/MmbiDriver.c:54-92 | a write takes a prefix of its data: all of it, or what fills the ring |
| `Ring.PullEmpties` | windows_driver/MmbiDriver.c:94-125 | a read hands out the front of the queue: as much as asked for, or all there is |
| `Ring.PushThenPull` | windows_driver/MmbiDriver.c:54-125 | after any run, a write and then a large enough read hand out everything queued and then the accepted prefix, which is all of the data unless the ring filled up |
| `Ring.PutAppends` | windows_driver/MmbiDriver.c:78-88 | the two-chunk copy, wrapped or not, appends to the window and keeps the rest of it |
| `Ring.RingBuffer.Write` | windows_driver/MmbiDriver.c:54-92 | appends a prefix of the data to the contents, which is all of it or fills the ring; WriteIdx stays ReadIdx + DataAvailable modulo the size |
| `Ring.RingBuffer.Read` | windows_driver/MmbiDriver.c:94-125 | fills the destination with the front of the contents and nothing more, and removes it |
| `Duplex.DirectionsAreIsolated` | windows_driver/MmbiDriver.c:128-198 | for every interleaving of handlers each direction ends up as if the other's requests had never been made |
| `Duplex.ReadsArePrefixes` | windows_driver/MmbiDriver.c:128-198 | for every interleaving what each device has read is a prefix of what was accepted from the other |
| `Duplex.SharedContext.EvtIoWrite` | windows_driver/MmbiDriver.c:128-163 | device 0 writes one ring and any other device the other; busy if and only if the data is not empty and that ring was already full; otherwise a success with the number of bytes appended, all of the data unless the ring is then full |
| `Duplex.SharedContext.EvtIoRead` | windows_driver/MmbiDriver.c:165-198 | the opposite ring's front is returned; an empty ring is a success with no bytes |
| `Control.Handle` | src/control.c:217-279 | a reply if and only if the message is a request, echoing instance ID and command with request and datagram bits clear, with the completion code the request deserves and exactly the data of a success; the EID becomes the requested one exactly for a valid Set Endpoint ID, which is in 8..254 |
| `Control.SweepRemoves` | src/control.c:299-309 | the removal loop deletes the type if and only if it never occurs twice in a row, and then keeps the rest in order |
| `Control.RegistryIsOrderedSet` | src/control.c:281-309 | over any run of adds and removes: no duplicates, at most ten types, and a remove deletes exactly its type and keeps the order |
| `Control.AddAppends` | src/control.c:281-297 | after any run an add appends its type if it is not registered and fewer than ten are, and otherwise changes nothing |
| `Control.RegisteredIffLastAdded` | src/control.c:281-309 | over runs in which at most ten types are ever wanted, a type is registered if and only if the last operation on it was an add, or there was none and it was registered at the start |
| `Control.TypeRegistry.AddMsgType` | src/control.c:281-297 | appends a type that is absent while fewer than ten are held; -ENOSPC if and only if it is absent and ten are held, else 0 |
| `Control.TypeRegistry.RemoveMsgType` | src/control.c:299-309 | the array after the loop with its shifts |
| `EndpointSpec.OneResponse` | src/core.c:450-541 | delivering a request causes exactly one send, to the requester with TO clear and the same tag, echoing it; anything else causes none; only a granted Set Endpoint ID changes the EID; a message goes to the application exactly when the library does not take it, and once; the transport callback gets exactly the requests with a command of 0xF0 or more; a message for another EID does nothing |
| `EndpointSpec.ResponseReleasesTag` | src/core.c:517-520 | after a response is delivered its tag is in use if and only if an expired duplicate shadowed it, every other tag is as it was, and live tags stay unique |
| `EndpointSpec.ResponsesMatchRequests` | src/core.c:515-541 | over any run of deliveries the sends are the responses to the requests, one each and in order |
| `EndpointSpec.ResponseIsOnePacket` | src/control.c:41-57 | on an idle enabled bus the response goes out as one packet from the EID in force to the requester |
| `EndpointSpec.SendByCause` | src/core.c:921-942 | the return code of a send by its cause, exactly; a refused message leaves nothing behind, one sent while disabled waits whole, and one sent while enabled starts with a SOM packet from this EID |
| `EndpointSpec.LedgerSend` | src/core.c:897-918 | a buffer handed to a send is freed or becomes the pending message, and no other buffer changes hands |
| `Buses.Heap.Free` | src/alloc.c:88-93 | only a live buffer can be freed, and it is live no more; its address is not handed out again |
| `Buses.Bus.NextTxPkt` | src/core.c:736-775 | the packet buffer holds the encoding of the next packet, within its bounds: version, destination, source, flag byte and payload at their places, from the fields of the bus |
| `Buses.Bus.PacketTx` | src/core.c:719-733 | nothing reaches the binding unless the bus is enabled |
| `Buses.Bus.TxComplete` | src/core.c:778-792 | the cursor, the sequence number and the buffer after a packet is done |
| `Buses.Bus.SendTxQueue` | src/core.c:794-825 | terminates for every message and answer, with the state, the packets offered and the buffer freed that the specification says |
| `Buses.Bus.SetTxEnabled` | src/core.c:827-863 | the three-state switch: constructed until enabled with a packet size of at least 68, then as switched; the queue resumes only from disabled |
| `Buses.Bus.MessageTxOnBus` | src/core.c:865-919 | return code, state and packets, and what becomes of the buffer in every case |
| `Endpoints.WrappingFitsExactly` | src/core.c:221-229 | the two wrapping comparisons accept a packet if and only if the true sum fits, for lengths up to SIZE_MAX |
| `Endpoints.Endpoint.CtxLookup` | src/core.c:155-170 | the first open context of the key |
| `Endpoints.Endpoint.CtxAddPkt` | src/core.c:216-235 | the bytes are appended if they fit, and otherwise nothing changes |
| `Endpoints.Endpoint.CtxDrop` | src/core.c:203-208 | the buffer is freed and the slot becomes unused |
| `Endpoints.Endpoint.RxStart` | src/core.c:619-648 | the table after a SOM packet, including the full table and the packet that does not fit |
| `Endpoints.Endpoint.RxMiddle` | src/core.c:683-713 | the table after a flagless packet, including every drop |
| `Endpoints.Endpoint.RxEnd` | src/core.c:650-681 | the table after an EOM packet and what is handed up |
| `Endpoints.Endpoint.RxSingle` | src/core.c:605-617 | the payload is handed up, no context is touched, and the copy is freed |
| `Endpoints.Endpoint.BusRx` | src/core.c:563-717 | for any bytes: table, deliveries and everything above are those of the specification, and the live buffers are again exactly the pending message and the open contexts |
| `Endpoints.Endpoint.Rx` | src/core.c:509-542 | tag release, control handling, and the receive callback for what is not handled |
| `Endpoints.Endpoint.ControlHandler` | src/control.c:217-279 | handled or not, the EID, and the one response sent |
| `Endpoints.Endpoint.MessageTxAlloced` | src/core.c:921-942 | the send and its return code; the buffer is taken over whatever the outcome |
| `Endpoints.Endpoint.MessageTx` | src/core.c:944-954 | the same for a copy, which leaves no buffer behind |
| `Endpoints.Endpoint.MessageTxRequest` | src/core.c:1031-1057 | the tag stays allocated when the send fails, and the buffer is taken over in every case |
| `Endpoints.Endpoint.Cleanup` | src/core.c:307-321 | no buffer is left live and none is freed twice |
| `Endpoints.Life` | src/core.c:299-321 | after any receives, sends, requests and enable switches in any order, then cleanup, every buffer ever allocated has been freed, each once |
| `BridgeSpec.RelayReassembles` | src/core.c:544-560 | on the bytes of a packet that carries a whole message: nothing is handed over if and only if it is shorter than 4 or from 0xff; otherwise an idle enabled bus with an accepting binding sends the fragments of the message with that source, destination, TO, tag and payload, and a receiver fed their bytes delivers it, if and only if it fits one packet or the limit and a context is available |
| `BridgeSpec.BridgeIsTwoSenders` | src/core.c:544-560 | over any arrivals on both sides and any answers, each bus does exactly what it would if the messages from the other were handed to it one after the other and nothing else happened |
| `BridgeSpec.BridgeDelivers` | src/core.c:544-560 | over any arrivals, with the right bus enabled, idle and accepting, an endpoint behind it delivers the messages that came in on the left, unchanged and in order, except multi-packet ones over its limit |
| `Bridges.Bridge.BusRx` | src/core.c:544-560 | a single-packet message is handed once to the other bus, the bus it came from is untouched, and no buffer is left behind |
| `Bridges.Bridge.Serve` | src/core.c:544-617 | any arrivals on both busses in any order take the bridge through exactly the run above, and no buffer is left behind |

## Left out

- Named pipes, file handles and the MMBI binding in src/mmbi.c, including `mctp_mmbi_rx`, which pushes bytes behind a buffer whose end is already set: foreign calls, and nothing is claimed end to end through the driver.
- Bridges.Bridge.BusRx: covers only packets that carry a whole message, because the context of any other message is dropped through `bus->mctp`, which `mctp_bridge_busses` leaves NULL and `mctp_get_alloc_ctx` dereferences.
- Re-entrant callbacks, such as a `tx` that calls `mctp_bus_rx` or switches its own bus off.
- Failing allocation, and `mctp_unregister_bus`, which leaves a pending message allocated; sends with no bus registered, which free the message and return 0.
- A maximum message size or bus EID changed by the application during a run; the EID change by a Set Endpoint ID request is modelled.
- The values of tag and tag owner passed to the transport control callback, which the call passes in the other order than the callback type; only the message bytes are recorded.
- `mctp_pktbuf_push`, `mctp_pktbuf_pop` and the other buffer helpers not used by the core, and ownership of received packet buffers: thin wrappers.
- Truncation of request lengths of 2^32 or more in the driver handlers, and the lock itself: a handler is one step.
- Logging, capture hooks, clocks, src/transport.c, src/alloc.c and driver set-up: plumbing.
