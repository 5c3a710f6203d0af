# Alfie messaging: a verified model of the transport, router, link and bridge

Alfie devices exchange messages of up to 512 bytes over DECT NR+ radio and hand them to phones over
BLE. This project models, and proves properties of, the code every message passes through:

* the stop-and-wait fragment transport that the DECT transport layer, the BLE service and the Python
  client each implement, with the pool of four reassembly contexts behind the first two;
* the router that takes completed messages by reference from the pools, through one FIFO per direction,
  to the transports of the other side and to a local endpoint;
* the DECT link framing, the H4 packet receiver and transmitter of the BLE bridge, and the text message
  format.

The model has two levels. `Reassembly` gives the pool as functions on values, and the theorems over runs
are about these functions. `TransportBuffer`, `Transport`, `AlfieRouter`, `LinkLayer`, `H4` and
`BleClient` hold classes in the shape of the sources (arrays scanned in place, buffer handles with
reference counts, a reused transmit buffer, static receiver variables), and each method is proved to act
as its function.

Run `dafny verify dfyconfig.toml` in this directory.

| file | content |
|---|---|
| Bytes, Wire | machine integers, byte strings, data and ACK frame layouts |
| Reassembly, TransportBuffer, KeyedMap, Expiry, BufferBound | the context pool as a value, as arrays and handles, and as a bounded keyed map; expiry across counter wrap; what stays inside the 512-byte buffers |
| Fragmentation, Sending, Transport | cutting messages, the sender's attempts, the two firmware transports |
| StopAndWait, WriteOutcome | one write over a lossy link with a clock and other traffic at the receiver: exactly when it arrives and exactly when it reports success |
| Network, AckCheck | any number of senders over an unordered lossy channel: integrity, and which check of ACKs makes success reports sound |
| DeliveryCount, LossyLink | how often one write is handed up |
| Routing, Router | reference counts over interleaved threads; forwarding order, split horizon and drain |
| LinkLayer, Stack | 37-byte frames, address filter, one-slot receive; a DECT write and its ACKs in bytes on air |
| H4 | the bridge's incremental packet receiver against a parser of the whole stream, and its transmit side |
| Hop | from a phone over BLE through a device's router and over DECT to the next device |
| BleClient, Protocol | the Python client against the firmware; text messages |

## What the proofs found

Some expectations one could have of the code do not hold. For each, the project proves when they do.

* **ACKs are not compared with the outstanding fragment** (dect_transport_layer.c:184,
  alfie_ble_service.c:277). So a write can return 0 although nothing of it was handed up.
  `AckCheck.CheckIsSoundExactly` characterises every possible check: over all runs each write that returns 0
  was itself handed up before, if and only if each ACK let through at the end acknowledges the last
  fragment of that very write. `AckCheck.SoundnessOfChecks` concludes that the present code is unsound,
  that comparing the two fields an ACK carries would still be unsound while two live messages may share a
  sequence id, and that identifying the outstanding fragment is sound. `AckCheck.SameFieldsSuffice` says when
  the fields are enough: where live messages of a source have different sequence ids. `AckCheck.WindowsAreSound`
  gives the assumption under which no check is needed: the ACK that ends a write is heard in the window of
  the transmission that caused it.
* **A lost ACK of the last fragment makes a delivered write report failure**: the receiver no longer
  knows the message and drops the retransmission. `StopAndWait.TransferOutcome` gives the exact condition.
* **Four attempts of 2500 ms do not cover two neighbouring fragments.** The first transmission of the next
  fragment always finds its context, but if more than three attempts in all time out between the first
  arrivals of two neighbours the message is lost. `StopAndWait.BudgetIsExact` is an equivalence.
* **A message of one fragment is handed up once for each copy that arrives**, up to four times
  (`StopAndWait.SingleFragmentOutcome`, `LossyLink.SingleHandedUpPerCopy`); a longer one at most once.
* **The announced total size is not compared with the 512-byte buffer.** `BufferBound.TotalGuardsBuffer`
  proves that this comparison is what is needed: over all frames a link can deliver to an empty pool, every
  buffer stays within its size exactly when no announced total exceeds 512, which the firmware's senders
  guarantee and the Python client does not; the fragments of a 513-byte message overrun one.
* **Expiry is wrong for at most one timeout after each wrap of the millisecond counter**
  (`Expiry.ExpiryIsExact`).
* **The text limit of 485 bytes in protocol.py forgets the NUL** that packing appends; the limit is 484
  (`Protocol.PackRoundTrip`).
* **Two contexts can share a key between lookup and source tag** in the DECT transport, exactly when a new
  message is opened in a context that still shows an earlier source, and that source is just sending a
  message of the same sequence id, fragment count and total (`KeyedMap.KeysClashExactly`); after the whole
  frame they cannot (`KeyedMap.PoolRefinesMap`).
* **A refused H4 buffer can cost more than its packet**: its payload is then read as packets and can swallow
  what follows. `H4.RefusalIsHarmlessExactly`: whatever follows is unaffected if and only if the payload, read as
  a stream of its own, holds no packet and leaves none unfinished. `H4.RefusalDisturbs` is an instance.
* **The link layer gives the callback more than the sender's bytes** exactly when a frame claims more payload than
  it has (`LinkLayer.CleanExactly`).
* **The header of the pool says that query parameters are ignored without a query callback**
  (transport_buffer.h:138-139); the code returns no buffer (transport_buffer.c:87-89). The model follows
  the code.

## Model

| member | source | states |
|---|---|---|
| StopAndWait.TransferOutcome | alfie/app/src/dect/dect_transport_layer.c:228-347 | for every message of two or more fragments, every channel that loses data frames and ACKs and any other traffic and releases at the pool: the message is handed up, once, whole and with its source, iff every fragment reaches the receiver in time, the first one finding room, and the write returns 0 iff in addition the first arriving copy of the last fragment is the first heard |
| StopAndWait.SingleFragmentOutcome | alfie/app/src/utils/transport_buffer.c:109-198 | a one-fragment message is handed up exactly once per copy that arrives and finds room, at most four times, and the write returns 0 iff some such copy is heard |
| StopAndWait.SendToLanding | alfie/app/src/dect/dect_transport_layer.c:228-248 | attempts of the first fragment that are lost or find the pool full are not acknowledged, hand nothing up and leave no trace |
| StopAndWait.BudgetIsExact | alfie/app/src/dect/dect_transport_layer.c:40-44 | the first transmission of the next fragment comes less than 10000 ms after the first arrival of this one; a later attempt is in time iff at most three attempts timed out between the two first arrivals |
| StopAndWait.ArriveFirst | alfie/app/src/utils/transport_buffer.c:134-159 | the first fragment of an unknown message is acknowledged when a context is free or just expires; afterwards exactly one context holds its first chunk, or, if it was the whole message, it was handed up |
| StopAndWait.ArriveNext | alfie/app/src/utils/transport_buffer.c:165-201 | the next fragment within the timeout is acknowledged and extends the held prefix by its chunk; the last one hands up exactly the message and leaves no context that knows it |
| StopAndWait.ArriveAgain | alfie/app/src/utils/transport_buffer.c:176-188 | a repeated fragment is acknowledged again, hands nothing up and changes neither the held prefix nor its time stamp |
| StopAndWait.ArriveStale | alfie/app/src/utils/transport_buffer.c:91-136 | after the timeout the partial message is dropped and its next fragment is neither acknowledged nor kept |
| StopAndWait.ForeignKeeps | alfie/app/src/utils/transport_buffer.c:91-132 | a frame of another message leaves an unexpired partial message as it was, reclaims an expired one, and never makes a context for it |
| StopAndWait.PassKeeps | alfie/app/src/utils/transport_buffer.c:91-163 | however long and busy a wait is, a held prefix is still held, unless its timeout is over |
| StopAndWait.ElapsedExact | alfie/app/src/utils/transport_buffer.c:100-102 | the wrapping difference of two clock readings is the true elapsed time modulo 2^32, hence exact below it |
| StopAndWait.SendLast | alfie/app/src/dect/dect_transport_layer.c:165-173 | the retry loop of the last fragment: hand-up iff its first arrival is in time, success iff that very arrival is heard |
| StopAndWait.SendMiddle | alfie/app/src/dect/dect_transport_layer.c:228-248 | the retry loop of a middle fragment hands nothing up and succeeds iff some copy arrives in time and some copy is heard |
| WriteOutcome.WriteSucceedsExactly | alfie/app/src/dect/dect_transport_layer.c:330-346 | the status of the sender's own loop, fed with the answers of that receiver over that channel, is success exactly under the condition of the transfer theorems |
| WriteOutcome.WriteRun | alfie/app/src/dect/dect_transport_layer.c:228-347 | sender loop and closed sender-channel-receiver system agree on success from every fragment on |
| Network.Integrity | alfie/app/src/dect/dect_transport_layer.c:137-174 | over every run, with any loss, repetition, delay, reordering, interleaving of senders and expiry, whatever the callback is given is byte for byte the data, and the source, of one write begun before |
| Network.StepKeepsInv | alfie/app/src/utils/transport_buffer.c:79-201 | every step keeps the invariant that each receiving context holds exactly the first chunks of one live message and an ACK of a last fragment is only on its way after the hand-up |
| Network.ReceiveFaithful | alfie/app/src/dect/dect_transport_layer.c:146-173 | a frame of a live message keeps all contexts faithful; if acknowledged, it completes the message iff it is the last fragment, and then data and source are the message's |
| Network.RunKeepsInv | alfie/app/src/utils/transport_buffer.c:79-201 | the invariant holds in every state of every run |
| AckCheck.CheckIsSoundExactly | alfie/app/src/dect/dect_transport_layer.c:176-189 | for every check of ACKs: in all runs every write that returns 0 was itself handed up between its begin and its return, iff every ACK the check lets end a write acknowledges the last fragment of that write |
| AckCheck.SoundnessOfChecks | alfie/app/src/ble/services/alfie_service/alfie_ble_service.c:264-279 | accepting every ACK, as the code does, is unsound; so is comparing sequence id and fragment index, and so is accepting the ACK of an equal earlier message; identifying the outstanding fragment is sound |
| AckCheck.ReturnedWasHandedUp | alfie/app/src/dect/dect_transport_layer.c:228-248 | a write that returns on an ACK of its last fragment was begun and then handed up whole before, in every run, whatever was lost or expired |
| AckCheck.WindowsAreSound | alfie/app/src/dect/dect_transport_layer.c:232-245 | the same where the ACK that ends the write is heard in the window of the transmission that caused it |
| AckCheck.SameFieldsSuffice | alfie/app/src/dect/dect_transport_layer.c:184-188 | the same where the ACK agrees in sequence id and fragment index and live messages of the source have different sequence ids |
| AckCheck.Misled | alfie/app/src/dect/dect_transport_layer.c:182-189 | any check that lets another ACK end a write is refuted by a run in which a write returns 0 and was never handed up |
| DeliveryCount.AtMostOnce | alfie/app/src/utils/transport_buffer.c:109-163 | copies of one write of two or more fragments arriving in order complete it at most once, with any loss, other traffic, expiry and release in between |
| DeliveryCount.OncePerCopy | alfie/app/src/utils/transport_buffer.c:134-198 | a one-fragment write completes once for exactly each copy that finds a free context |
| DeliveryCount.CompletedByLast | alfie/app/src/utils/transport_buffer.c:190-198 | only the last fragment completes a message, and then no context knows it any more |
| LossyLink.WriteHandedUpAtMostOnce | alfie/app/src/dect/dect_transport_layer.c:301-347 | of the frames one write of two or more fragments puts on the link, any subsequence arriving in order hands the message up at most once |
| LossyLink.SingleHandedUpPerCopy | alfie/app/src/dect/dect_transport_layer.c:228-248 | for one fragment, exactly once per arriving copy that finds room, so at most four times |
| KeyedMap.PoolRefinesMap | alfie/app/src/utils/transport_buffer.c:79-201 | a whole frame acts on the context array as on a map of bounded capacity from (source, sequence id, fragment count, total) to partial messages: same ACK decision, same completed data, same new map; keys stay unique |
| KeyedMap.OtherKeysUntouched | alfie/app/src/utils/transport_buffer.c:91-132 | a frame leaves every unexpired partial message of another key and every completed message exactly as it was |
| KeyedMap.ExpireRefines | alfie/app/src/utils/transport_buffer.c:91-107 | the expiry scan removes from the map exactly the keys silent for the timeout |
| KeyedMap.WriteRefines | alfie/app/src/utils/transport_buffer.c:165-201 | a write to the context carrying a key is the extension of that map entry |
| KeyedMap.MatchIsKey | alfie/app/src/utils/transport_buffer.c:109-132 | the scan finds a context iff the key is live, and then no other context matches |
| KeyedMap.FreeIsRoom | alfie/app/src/utils/transport_buffer.c:138-162 | the scan finds a free context iff live and held messages together are below the capacity |
| KeyedMap.KeysClashExactly | alfie/app/src/dect/dect_transport_layer.c:146-155 | two receiving contexts share a key between lookup and source tag iff a first fragment opens a context whose stale source has a live message of the same sequence id, fragment count and total |
| KeyedMap.StaleSourceWindow | alfie/app/src/dect/dect_transport_layer.c:146-155 | this does happen, with two sources that choose one sequence id, and is over after the frame |
| Expiry.ExpiryIsExact | alfie/app/src/utils/transport_buffer.c:100-106 | the expiry verdict is right iff the true age is below the timeout or not within one timeout after a counter wrap; always right below 2^32 ms |
| Expiry.LifeIsBounded | alfie/app/src/utils/transport_buffer.c:91-188 | over all frames and releases at a pool, repeats never extend a message's life: each context's k-th accepted fragment, the completing one included, comes less than k timeouts after it was opened, and a partial message silent for the timeout is gone at the next frame |
| Expiry.FrameKeepsYoung | alfie/app/src/utils/transport_buffer.c:79-201 | one frame, matching or not, keeps that bound at every context |
| Expiry.StampsAreTrue | alfie/app/src/utils/transport_buffer.c:134-188 | the time stamps these bounds speak about restart exactly where a frame opens a context and move exactly where a fragment is accepted |
| Expiry.MessageLife | alfie/app/src/utils/transport_buffer.c:176-198 | from an empty pool on, every completed message took less than its fragment count times the timeout from the opening of its context |
| Fragmentation.Partition | alfie/app/src/dect/dect_transport_layer.c:317-337 | the chunks are nonempty, at most the payload size, full except the last, and concatenate to the message |
| Fragmentation.CountFitsByte | alfie/app/src/ble/services/alfie_service/alfie_ble_service.c:392-393 | the fragment count of every message up to 512 bytes fits its byte iff the payload size is at least 3 |
| Fragmentation.ChunkStep | alfie/app/src/dect/dect_transport_layer.c:330-337 | each chunk's offset and length are in bounds, it extends the prefix before it, and only the last reaches the end |
| Fragmentation.WriteNext | alfie/app/src/utils/transport_buffer.c:184-200 | writing chunk k to a context that holds the first k chunks gives the first k + 1, or completes with exactly the message |
| Sending.LogInOrder | alfie/app/src/dect/dect_transport_layer.c:228-347 | whatever the link answers, only fragments of the message go on the link, in nondecreasing order, at most four copies of each |
| Sending.OkSendsAll | alfie/app/src/dect/dect_transport_layer.c:330-346 | a write that succeeds has put every fragment on the link |
| Sending.FirstAnswerDecides | alfie/app/src/ble/services/alfie_service/alfie_ble_service.c:182-203 | the first answer that is not a timeout decides a fragment: a refusal ends it at once with the link's error and no copy of its own, an acknowledgement with success; four timeouts are four copies and a failure |
| Sending.FirstFailureDecides | alfie/app/src/dect/dect_transport_layer.c:330-346 | a write fails with the status of the first fragment that fails and puts no frame of a later one on the link; it succeeds if none fails |
| Sending.LogCounts | alfie/app/src/dect/dect_transport_layer.c:330-346 | each fragment is in the log of a write as often as its own attempts sent it if every fragment before it got through, and not at all otherwise |
| Transport.Transport.Write | alfie/app/src/dect/dect_transport_layer.c:301-347 | exact status of every guard in its order, and otherwise exactly the specified frames, free of stale bytes of the reused buffer, and the specified status; every frame goes to the addressee, fits the link (22 bytes over DECT, 251 over BLE) and, unless it is of the last fragment, fills it |
| Transport.FramesFillTheLink | alfie/app/src/dect/dect_transport_layer.c:46-47 | every frame of a write is at most what its link carries, and exactly that unless it is of the last fragment |
| Transport.Transport.WriteFragments | alfie/app/src/ble/services/alfie_service/alfie_ble_service.c:401-417 | the fragment loop over the reused buffer puts exactly the specified frames on the link and stops at the first failure |
| Transport.Transport.WriteDataFrame | alfie/app/src/ble/services/alfie_service/alfie_ble_service.c:182-203 | as many copies of the frame, and the outcome, as `Sending.FirstAnswerDecides` says for the link's answers; the semaphore is taken afterwards |
| Transport.Transport.OnRx | alfie/app/src/dect/dect_transport_layer.c:198-218 | a data frame acts on the pool as the reassembly function, is answered by exactly the ACK of its sequence id and index iff accepted, and a completed message is queued or freed; a buffer is overrun exactly when it then holds more than its size; an ACK gives the semaphore, from 2 bytes on over DECT and from 5 over BLE; everything else changes nothing, and what has neither type is rejected |
| Transport.AcksExactly | alfie/app/src/ble/services/alfie_service/alfie_ble_service.c:270-278 | every ACK a receiver builds is taken as one in both layouts, a shorter one over DECT only, a data frame never |
| Transport.Transport.HandleDataFrame | alfie/app/src/ble/services/alfie_service/alfie_ble_service.c:229-262 | pool, ACK, router FIFO and overrun after a data frame of sufficient length are exactly those of the reassembly function; the FIFO of the other direction is untouched |
| Transport.Transport.HandleComplete | alfie/app/src/dect/dect_transport_layer.c:117-128 | a completed message ends queued with only the router's reference, or free again when no callback is registered or it is shorter than a message header |
| Transport.StoreFragment | alfie/app/src/dect/dect_transport_layer.c:331-339 | what is taken from the reused buffer is the encoding of exactly this fragment |
| Transport.FrameIsLaneSteps | alfie/app/src/dect/dect_transport_layer.c:117-174 | the transport's steps in the interleaving model compose to what its methods promise for a frame |
| Transport.ForwardIsLaneSteps | alfie/app/src/alfie/alfie_router.c:87-122 | the router's steps in the interleaving model compose to taking the head, passing on its contents and dropping one reference |
| TransportBuffer.TransportBufferPool.Get | alfie/app/src/utils/transport_buffer.c:79-163 | context array and handles after the three scans and the returned context are those of the value function; query parameters without a callback return nothing and change nothing |
| TransportBuffer.TransportBufferPool.Write | alfie/app/src/utils/transport_buffer.c:165-201 | return code and new contexts are those of the value function in every branch, and the buffer is overrun exactly when what is accepted has no room in it |
| Reassembly.ReturnCodes | alfie/app/src/utils/transport_buffer.c:165-201 | which condition gives which return code, and that every failure but a wrong final size leaves the context alone |
| TransportBuffer.TransportBufferPool.Ref | alfie/app/src/utils/transport_buffer.c:203-213 | one more reference to the context's buffer, nothing else; the pool's invariant survives iff the message is not partial |
| TransportBuffer.TransportBufferPool.Unref | alfie/app/src/utils/transport_buffer.c:215-234 | one reference less; the last one frees context and buffer together |
| TransportBuffer.TransportBufferPool.ReclaimExpired | alfie/app/src/utils/transport_buffer.c:91-107 | the in-place scan frees exactly the expired contexts and their buffers |
| TransportBuffer.FreeContextHasFreeBuffer | alfie/app/src/utils/transport_buffer.c:138-147 | with as many buffers as contexts, allocation behind a free context cannot fail |
| TransportBuffer.ReplaceContext | alfie/app/src/utils/transport_buffer.c:203-234 | changing one context with its buffer keeps one owner per allocated buffer and every other context's contents |
| BufferBound.TotalGuardsBuffer | alfie/app/src/utils/transport_buffer.c:180-184 | for each payload size from 3, pool size and kind: over all sequences of frames and releases from an empty pool with totals up to a limit every buffer stays within 512 bytes, iff the limit is at most 512 |
| BufferBound.Filling | alfie/app/src/utils/transport_buffer.c:134-201 | the fragments of any message, arriving in order at an empty pool, end with all its bytes in one buffer |
| BufferBound.StaysBounded | alfie/app/src/utils/transport_buffer.c:79-201 | no sequence of frames fills a buffer beyond the largest total announced |
| Routing.StepConserves | alfie/app/src/utils/transport_buffer.c:203-234 | every interleaved step of transport and router keeps each reference count equal to the number of holders, and every message on its way unaltered and in order |
| Routing.RunConserves | alfie/app/src/alfie/alfie_router.c:87-151 | so in every state of every run |
| Routing.DrainedIsFree | alfie/app/src/alfie/alfie_router.c:153-181 | what was passed on is always a prefix of what arrived; once nothing is held or being received every context is free and everything that arrived was passed on |
| Routing.LastHolderFrees | alfie/app/src/utils/transport_buffer.c:226-233 | whichever of transport and router lets go last frees the context, and only that one |
| AlfieRouter.Router.Drain | alfie/app/src/alfie/alfie_router.c:153-181 | without arrivals the queues empty, and every queued message was written exactly once, in queue order, to every transport of the other side and none of its own, and notified to at most the first endpoint with its id |
| AlfieRouter.Router.Wake | alfie/app/src/alfie/alfie_router.c:162-180 | each wake-up advances each nonempty FIFO by one and drops that message's router reference; calls and notifications made and still due do not change |
| Routing.HeaderFields | alfie/app/src/alfie/alfie_protocol.h:33-38 | in every message whose ten header bytes are version, endpoint, source and destination, the router reads exactly that endpoint and that destination |
| AlfieRouter.Router.ForwardToDownstream | alfie/app/src/alfie/alfie_router.c:87-101 | one write with the header's destination on every downstream transport, none on an upstream one, at most one notification, one reference less |
| AlfieRouter.Router.ForwardToUpstream | alfie/app/src/alfie/alfie_router.c:108-122 | the same in the other direction |
| AlfieRouter.Router.HandleUpstreamRx | alfie/app/src/alfie/alfie_router.c:130-151 | a message shorter than a header is refused without a trace; any other is queued last with one more reference |
| AlfieRouter.Router.NotifyEndpoint | alfie/app/src/alfie/alfie_router.c:68-80 | one notification, to the first endpoint registered with the id in the message's second byte, and none if there is no such endpoint |
| AlfieRouter.UnrefHead | alfie/app/src/alfie/alfie_router.c:87-122 | dropping the head's reference leaves all later messages of the FIFO complete, referenced and unchanged |
| Wire.DataRoundTrip | alfie/app/src/dect/dect_transport_layer_private.h:60-67 | every data frame a sender builds is recognised and decoded to itself in both layouts |
| Wire.DecodeInjective | utils/ble_client/protocol.py:38-39 | every data frame of version 0 is the encoding of what it decodes to |
| Wire.DataBytes | alfie/app/src/ble/services/alfie_service/alfie_ble_service_protocol.h:51-58 | both data frame layouts byte by byte, for all field values |
| Wire.AckBytes | alfie/app/src/dect/dect_transport_layer_private.h:49-53 | an ACK carries the sequence id and index it is given |
| LinkLayer.LinkRoundTrip | alfie/app/src/dect/dect_link_layer.c:166-187 | only the addressee accepts a padded frame, and gets back source and payload whatever its slot held before |
| LinkLayer.FrameBytes | alfie/app/src/dect/dect_link_layer_private.h:43-62 | every link frame byte by byte: magic, version 1, addresses, payload size, payload, zeros up to 37 bytes |
| LinkLayer.AcceptedExactly | alfie/app/src/dect/dect_link_layer.c:166-182 | a frame passes the filter iff its size is between header and MTU, it has the magic and its destination is the device |
| LinkLayer.LastForUsWins | alfie/app/src/dect/dect_link_layer.c:319-324 | of several frames in one receive window the last one for the device is what the callback gets |
| LinkLayer.CleanExactly | alfie/app/src/dect/dect_link_layer.c:168-186 | what the callback is given does not depend on the slot before or the memory behind it, and is the sender's bytes, iff the frame claims no more payload than it has |
| LinkLayer.LinkLayer.Write | alfie/app/src/dect/dect_link_layer.c:498-523 | status of every guard, and the padded frame queued last exactly on success |
| LinkLayer.LinkLayer.OnPdc | alfie/app/src/dect/dect_link_layer.c:166-187 | a frame overwrites the slot, as far as it is long, iff size, magic and address are right |
| LinkLayer.LinkLayer.Turn | alfie/app/src/dect/dect_link_layer.c:417-443 | a turn of the thread sends the oldest queued frame and gives a registered callback exactly what the slot holds after the window, if any frame was for the device; a payload size beyond the frame reads the memory behind it |
| Stack.AirOutcome | alfie/app/src/dect/dect_link_layer.c:417-443 | the transfer theorems in bytes on air, for every message the DECT transport sends: fragmenting, packing, framing, padding, filtering, unpacking, reassembling and the ACK frames back give the receiver exactly the bytes and the sender's address exactly as often, and success exactly when, those theorems say |
| Stack.DectWriteOutcome | alfie/app/src/dect/dect_transport_layer.c:301-347 | the message one call of the DECT transport's write sends is one `Stack.AirOutcome` speaks about, and with the answers of that channel the call returns 0 exactly when it says |
| Stack.AirAgrees | alfie/app/src/dect/dect_transport_layer.c:198-347 | the write in bytes over both link layers is the write on frames, state by state |
| Stack.StackRoundTrip | alfie/app/src/dect/dect_link_layer.c:166-187 | where nothing is lost, every such message comes back whole with its source and the write returns 0 |
| Stack.OthersHearNothing | alfie/app/src/dect/dect_link_layer.c:179-182 | a device that is not the addressee is left unchanged by any number of frames |
| Hop.HopOutcome | alfie/app/src/alfie/alfie_router.c:87-151 | a message written over BLE is forwarded as often as it is handed up at the device, to the destination in its header, and the next device is given exactly the phone's bytes with the relaying device's address, as often as the transfer theorems say for those writes, over every two lossy links |
| Hop.TextHop | utils/ble_client/protocol.py:137-162 | a packed text of up to 484 bytes is written to the device it is for, once per copy handed up, and each arrival there unpacks to the text without its trailing NULs |
| Hop.TextHeader | utils/ble_client/protocol.py:137-147 | the router reads from every packed text its destination and the messaging endpoint |
| Hop.ForwardedWhere | alfie/app/src/alfie/alfie_router.c:87-101 | a message with a whole header is written to the destination in its bytes 6 to 9, a shorter one nowhere |
| Hop.ForwardedAppend | alfie/app/src/alfie/alfie_router.c:153-181 | hand-ups are forwarded one by one and in order |
| Hop.HearFrame | alfie/app/src/ble/services/alfie_service/alfie_ble_service.c:285-310 | what the router owes the DECT transports grows by exactly what one frame made the BLE service hand up |
| Hop.HopOnce | alfie/app/src/alfie/alfie_router.c:87-101 | with several fragments on both links: once, iff every fragment gets through in time on both |
| Hop.RelayFrame | alfie/app/src/ble/services/alfie_service/alfie_ble_service.c:285-310 | a frame at the BLE service and the router's thread until idle: every DECT transport is asked to write exactly what the frame made the service hand up, after what was queued |
| Hop.HandedIsForwarded | alfie/app/src/alfie/alfie_router.c:130-151 | what a frame adds to the router's queue is one call for what it completed, if that has a header |
| H4.Receiver.HandleRx | alfie/ble_bridge/src/main.c:112-249 | for every byte stream, every split into interrupts and short reads and every refused buffer, the packets queued are those of the parser on the whole stream |
| H4.Receiver.RxIsr | alfie/ble_bridge/src/main.c:112-207 | each interrupt terminates, loses no byte, takes at least one if there is one, and leaves bytes behind only after a packet without payload or a refused buffer |
| H4.Receiver.ReadHeader | alfie/ble_bridge/src/main.c:142-173 | any part of a header keeps the machine's variables equal to the unfinished packet of the parser, through the choice of payload, discard or, without a buffer, reset |
| H4.Receiver.ReadPayload | alfie/ble_bridge/src/main.c:174-185 | the same for payload bytes; a packet is queued exactly when complete, zero-length payloads included |
| H4.Receiver.ReadDiscard | alfie/ble_bridge/src/main.c:186-199 | the same while an oversized packet is dropped, at most 33 bytes at a time |
| H4.ParseAppend | alfie/ble_bridge/src/main.c:112-207 | parsing a continued stream is parsing from the unfinished rest, so the split does not matter |
| H4.Resynchronises | alfie/ble_bridge/src/main.c:155-199 | a packet that gets a buffer, kept or oversized, is consumed exactly, and what follows is parsed as if it stood alone; of one that gets none only the header is consumed |
| H4.RefusalDisturbs | alfie/ble_bridge/src/main.c:153-159 | a refused command whose payload begins another one makes the next command disappear, although that could have a buffer |
| H4.RefusalIsHarmlessExactly | alfie/ble_bridge/src/main.c:153-159 | for a packet refused its buffer and any later ones given: every following stream yields what it yields alone, iff the packet's payload, read as a stream, holds no packet and leaves none unfinished |
| H4.UnfinishedSwallows | alfie/ble_bridge/src/main.c:122-185 | an unfinished packet always swallows a following smallest command |
| H4.RoundTrip | alfie/ble_bridge/src/main.c:112-207 | while buffers are given, a stream of any commands, ACL and ISO packets, built from opcode or handle and any payload whose length its field can hold, is parsed into exactly those that fit their buffers, in order, with no rest |
| H4.BuiltResynchronises | alfie/ble_bridge/src/main.c:142-199 | every such packet is consumed exactly, whatever follows, if it gets a buffer; if not, its payload is parsed as if packets started there |
| H4.LengthFields | alfie/ble_bridge/src/main.c:79-94 | the length read from a header, for all values of the three length fields: 8 bits, 16 bits, and the lower 14 of 16 |
| H4.SkippedExactly | alfie/ble_bridge/src/main.c:122-140 | a byte is skipped where a packet should start iff it is none of the indicators 1, 2 and 5 |
| H4.WellFormedExactly | alfie/ble_bridge/src/main.c:79-110 | the packets whose header announces their payload are exactly those a sender can build |
| H4.ParsedAreWellFormed | alfie/ble_bridge/src/main.c:161-183 | whatever arrives, every queued packet has the length its header announces and fits its buffer |
| H4.Sender.TxIsr | alfie/ble_bridge/src/main.c:209-228 | for every pattern of partial fills the bytes on the wire are a prefix of all buffers in the order sent, the rest being exactly the current buffer and the queue; the interrupt goes off only when nothing waits |
| H4.Sender.Send | alfie/ble_bridge/src/main.c:273-281 | a buffer is queued last, the interrupt enabled and the conservation kept |
| BleClient.StreamsAgree | utils/ble_client/client.py:159-190 | on every stream of sender-built frames with no expiry and a free context, the dictionary and the firmware's pool acknowledge the same frames and deliver the same messages in the same order |
| BleClient.FrameAgrees | alfie/app/src/ble/services/alfie_service/alfie_ble_service.c:229-262 | the same for one frame, with the agreement of all contexts kept |
| BleClient.AckAgreesExactly | utils/ble_client/client.py:159-190 | also with expiry and a full pool: exactly when the two make the same ACK decision |
| BleClient.SentConforms | utils/ble_client/client.py:229-246 | every frame a sender cuts from a message is one the agreement theorems are about |
| BleClient.AgreeAtStart | utils/ble_client/client.py:159-170 | an empty dictionary agrees with an initialised pool |
| BleClient.TotalIsIgnored | utils/ble_client/client.py:159-190 | the announced total does not matter to the client |
| BleClient.Client.AdaptToMtu | utils/ble_client/client.py:94-99 | frame and ATT header fill the negotiated MTU exactly up to 254 bytes, beyond that a frame is 251 bytes; an unknown MTU changes nothing |
| BleClient.Client.HandleRxPayload | utils/ble_client/client.py:159-190 | dictionary, scheduled ACKs and delivered messages after any frame are those of the value function |
| BleClient.Client.OnNotification | utils/ble_client/client.py:138-154 | dispatch by length and type; a data frame has exactly that effect, an ACK only sets the event |
| BleClient.Client.SendFragmented | utils/ble_client/client.py:229-268 | the frames written and the outcome are those specified, and nothing at all is written where length or fragment count exceed their header fields |
| BleClient.SendersAgree | utils/ble_client/client.py:229-268 | for every message within the header fields the client's frames, retries and outcome are those of the firmware's sender with the client's payload size |
| BleClient.EmptyIsNeverAcknowledged | utils/ble_client/client.py:229-246 | an empty message is one empty frame, which the firmware never acknowledges in any state of its pool |
| Protocol.PackRoundTrip | utils/ble_client/protocol.py:137-162 | unpacking a packed message strips the trailing NULs of its text, so it is the identity iff there are none; it fits 512 bytes iff the text has at most 484 |
| Protocol.PackBytes | utils/ble_client/protocol.py:137-147 | the packed message byte by byte |
| Protocol.UnpackRefusals | utils/ble_client/protocol.py:149-156 | unpacking refuses exactly messages shorter than the header and those of another type, and looks at neither version nor endpoint |
| Protocol.UnpackParts | utils/ble_client/protocol.py:149-162 | the fields taken from every text message, whoever built it, also from one cut off within its uuid |
| Protocol.TextEndToEnd | utils/ble_client/protocol.py:137-162 | over every lossy channel, what is handed up for a packed text of up to 484 bytes is what the transfer theorems say, and each copy unpacks to that message without trailing NULs |
| Protocol.StripSpec | utils/ble_client/protocol.py:161-162 | the stripped text is the longest prefix that does not end in NUL, the whole text iff it has no NUL at its end |

## Left out

- TransportBuffer.TransportBufferPool.Write: an overrun buffer just holds more than its size; what the overrun does to other memory is not modelled.
- TransportBuffer.TransportBufferPool.Unref: is one atomic step, although the code reads the count and then acts (its own comment notes this).
- Network.Integrity: assumes that a source does not start a message with the key of one of its messages still on its way; sequence ids are random and collisions unlikely. Frames travel decoded there; module Wire relates them to their bytes.
- StopAndWait.TransferOutcome: delivery takes no time, a heard ACK comes before its 2500 ms are over, and no other traffic uses the message's key.
- Hop.HopOutcome: the device's DECT writes are made one after the other, each for a message unknown to the next device.
- Stack.AirOutcome: each frame is alone in its receive window; one displaced by a later frame in the window is a lost one.
- BleClient.StreamsAgree: completed firmware buffers are released at once.
- BleClient.Client.SendFragmented: requires a positive payload size, which ATT's smallest MTU of 23 gives.
- Protocol.PackRoundTrip: text is its UTF-8 encoding; the replacement of malformed UTF-8 on receipt is not modelled.
- Threads: calls are atomic steps. The clock is read once per call. Races inside a call, blocking on the full link queue (the ACK path can wait on the queue that its own thread drains) and priorities are not modelled.
- The DECT transport and the BLE service are one class with a layout parameter: their code differs only in frame layout, payload size, source key and the order of guards. The BLE connection is a flag, its source and destination the address 0.
- A failed write of an ACK is only logged by the code and does not appear.
- NULL arguments and the NULL checks for them; the transport type outside upstream and downstream.
- Router registration failures, and initialisation code everywhere.
- The modem, GATT registration, advertising and connection callbacks: a frame is delivered or lost, and a link write succeeds, fails or is acknowledged as the environment chooses.
- The Python client's task scheduling: an ACK counts as sent when its task is created. Disconnection, scanning, the user interface and `_deliver_message`'s error report are left out.
- Big-endian targets: the packed structures are read as little-endian.
- uart_bridge.c, device_id, control_ble_service and the messaging endpoint's printing: they would only add easy members.
