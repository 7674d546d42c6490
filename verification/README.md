# RelayStar: a verified model of the relay engine

RelayStar passes short messages between nodes over LoRa, ESP-NOW and MQTT. A relay slices a
message to the mtu of each transport, drops frames it has seen lately, puts slices together in
a fixed number of slots, learns which peer is reachable where, and plans what to send and
forward. A bridge runs that engine over three outbound queues. This project models the
engine, the bridge, the wire format and the MQTT 3.1.1 client in Dafny 4.11 and proves what
they promise, call by call and over whole runs.

`dafny verify dfyconfig.toml` checks everything.

## How it is built

Each stateful component appears twice: as a class that updates its fields in place, loop for
loop like the code, and as a function on values that says what one call means. Every method of
the class is proved to do just what the function says; the theorems about runs are about the
functions.

A lemma carries `{:induction false}` where it is recursive or where Dafny would otherwise try
an induction of its own.

| files | content |
|---|---|
| `Wrappers`, `Sums`, `Bits` | result types, sums over maps, bitwise arithmetic on numbers |
| `Proto`, `Leb128`, `Wire` | messages and limits, base-128 numbers, the postcard wire format |
| `Dedup`, `SeenCache` | the deduplication key; the ring of recently seen keys as a history |
| `Fragmenter`, `Reassembly`, `ReassemblyRuns` | slicing; reassembly as a map of open groups; runs of it |
| `Reassembler` | the slot array with masks, counters and buckets, refining that map |
| `Receivers` | the receiver table with its bitmaps, refining a map to transport sets |
| `RelaySpec`, `Relay`, `Answers` | the composed engine, on values and as a class; what each answer means |
| `AtMostOnce`, `Transfers`, `Versions`, `ExactlyOnce` | delivery over runs: a bound, the general case of a flood, one message |
| `EndToEnd`, `MultiHop` | from a sender's plan to delivery, over one hop and over many |
| `DedupLimits`, `Outcomes` | where the guarantees end, in general and in runs of real sends |
| `Planning` | what plans cover; freshness of ids |
| `BridgeSpec`, `BridgeLoop`, `Forwarding`, `Mesh` | one bridge, and what it shows and forwards; a mesh of them; flooding ends |
| `Utf8`, `Mqtt`, `Topics` | text; the packet codec and the client over a byte stream; the topic scheme |

The constants SLOTS, PER_SLOT and N of the reassembler, seen cache and receiver table stay
symbolic, and slicing is proved for every mtu. The relay's seen cache has its real size, 64.
Bounded vectors are sequences whose bound is written out where the code checks it, and fixed
width integers are ranges of `int` with explicit wrap-around.

## What the proofs found

- A payload of more than 200 bytes is never sliced: `plan_send` refuses it
  (`Planning.PlanSendCorrect`). The crate's README shows a 2 KB send and the comment at
  `crates/relaystar-relay/src/fragment.rs:16-21` speaks of 4 KB; the code decides here.
- The seen cache is described as preventing mesh loops. It forgets a key after 64 others, and
  `DedupLimits.RepeatRecognisedIff` gives the exact condition. A relay that hears 65 messages
  over and over takes every frame as fresh, so the bound of one delivery in 65 frames is
  reached (`DedupLimits.BoundIsReached`). Flooding still ends, because of the hop budget alone
  (`Mesh.FloodTerminates`).
- The key leaves the group out, the slots do not. When a message arrives in slices of several
  groups, as it does when two bridges forward it, each slice number goes to the group whose
  copy comes first. The message is delivered exactly when one version wins all its numbers;
  the groups that win only some keep their slots (`Versions.FloodDelivery`). Two bridges whose
  slices interleave are enough for all frames to arrive and nothing to be delivered
  (`Outcomes.ForwardersInterleave`).
- Distinct slices of one message never share a key, but slices of different messages can:
  `Dedup.KeysCollideIff` is the exact condition and `Dedup.OneNodeKeysCollide` a family of
  collisions within one node's ids, 2^16 apart. A message can so be dropped as a repeat at a
  relay that never heard it (`Outcomes.CollisionSuppresses`).
- The key is recorded before the reassembler may refuse a slice. A refused slice that is sent
  again is therefore dropped as a repeat exactly as long as fewer than 64 other frames were
  fresh in between (`DedupLimits.RefusedSliceIsLost`); `Outcomes.SlotsRunOut` shows sends that
  fill all slots and one that is refused.
- `plan_send` gives every transport the same id, and slice 0 has the key of the unsliced
  message. A receiver that hears both forms still delivers the message at most once while it
  remembers it (`ExactlyOnce.DeliveredInEitherForm`), but
  - if all slices arrive, their slot stays taken exactly when the unsliced form comes before
    slice 0 (`DedupLimits.SecondFormStrandsSlot`);
  - such a slot is freed by a copy of slice 0 that comes after the message was forgotten, and
    then the message is delivered a second time (`DedupLimits.LateSliceDeliversAgain`);
  - although the unsliced form arrives, the message is not delivered at all exactly when
    slice 0 came before it and another slice is lost (`DedupLimits.SlicesSuppressWhole`).

  One `plan_send` of 181 to 200 bytes over LoRa and another transport can end with a taken
  slot, with a clean delivery, with none, and with two (`Outcomes.OneSendFourOutcomes`).

## Model

| member | source | states |
|---|---|---|
| Fragmenter.Split | crates/relaystar-relay/src/fragment.rs:40-108 | The slicing loop gives just the frames of the specification for the smaller of transport mtu and message bound, with the same failures. |
| Fragmenter.SplitWithMtu | crates/relaystar-relay/src/fragment.rs:48-107 | The same loop for an arbitrary mtu, zero included. |
| Fragmenter.SplitCorrect | crates/relaystar-relay/src/fragment.rs:31-108 | For every mtu: failure exactly when the mtu is zero or more than 32 slices are needed; every frame fits; a fitting message travels unchanged; otherwise the frames are its slices in order, nonempty, spelling its payload, and as few as possible. |
| Fragmenter.RealTransportsSplit | crates/relaystar-proto/src/lib.rs:80-90 | For a well-sized message no transport fails, and only LoRa beyond 180 bytes needs a second slice. |
| Reassembly.AnyOrderReassembles | crates/relaystar-relay/src/fragment.rs:207-273 | The slices of a message in any order are buffered, and the last gives the original message back; every other group stays as it was. |
| Reassembly.SliceStep | crates/relaystar-relay/src/fragment.rs:221-272 | One more slice of a split: buffered with its payload and header kept, or, if it was the last one missing, the whole message; other groups untouched. |
| Reassembly.AnswerDecided | crates/relaystar-relay/src/fragment.rs:207-273 | Exactly which slice is answered with which reason or result, in the order of the checks. |
| Reassembly.IngestKeepsGroups | crates/relaystar-relay/src/fragment.rs:207-273 | Every open group keeps between one and total - 1 slices, all numbered below a total of at most 64 and the slot size, and there are never more groups than slots. |
| Reassembly.RunKeepsGroups | crates/relaystar-relay/src/fragment.rs:207-273 | The same over every run. |
| Reassembly.OtherGroupsUntouched | crates/relaystar-relay/src/fragment.rs:275-304 | A message changes no group but its own. |
| Reassembly.OverflowOnlyWhenComplete | crates/relaystar-relay/src/fragment.rs:233-254 | With well-sized messages the overflow answer comes only from joining a complete group, never from copying one slice. |
| ReassemblyRuns.SlicesConserved | crates/relaystar-relay/src/fragment.rs:240-272 | Over every run of arrivals and evictions, slices held at the end plus slices released equal slices held at the start plus slices buffered. |
| ReassemblyRuns.DeliveredIsGenuine | crates/relaystar-relay/src/fragment.rs:247-300 | Whatever came before, a completed message has the header of the message that opened its group, and consists of one slice of that very group for each number, in order, all arrived since it was opened. |
| SlotArray.Slot.constructor | crates/relaystar-relay/src/fragment.rs:159-169 | A new slot is free and empty. |
| SlotArray.Slot.Reset | crates/relaystar-relay/src/fragment.rs:171-181 | After a reset nothing of the earlier group is left: flags, mask, counter, every bucket and header. |
| SlotArray.Slot.Claim | crates/relaystar-relay/src/fragment.rs:283-300 | A claimed slot holds the new group with the header of its first message and no slice. |
| SlotArray.Slot.Store | crates/relaystar-relay/src/fragment.rs:233-241 | Storing a slice adds exactly it, keeping mask, population count, counter and buckets in agreement. |
| SlotArray.Reassembler.constructor | crates/relaystar-relay/src/fragment.rs:190-201 | A new reassembler tracks no group. |
| SlotArray.Reassembler.Ingest | crates/relaystar-relay/src/fragment.rs:203-273 | The slot array gives the same answer and reaches the same groups as the map, on every message. |
| SlotArray.Reassembler.Absorb | crates/relaystar-relay/src/fragment.rs:226-245 | The part of it after a slot was found: duplicate, overflow, buffered or complete. |
| SlotArray.Reassembler.Deliver | crates/relaystar-relay/src/fragment.rs:247-272 | Joining stops at the first overflow exactly when the whole is too large; otherwise it gives all slices in order under the kept header; the slot is freed either way. |
| SlotArray.Reassembler.FindOrClaim | crates/relaystar-relay/src/fragment.rs:275-304 | Finds the slot of the group, claims the first free one for a new group, or reports none exactly when all are taken by other groups. |
| SlotArray.Reassembler.Evict | crates/relaystar-relay/src/fragment.rs:306-316 | Of the groups with that id, removes the one in the first such slot and nothing else, and answers whether there was one. |
| SlotArray.Reassembler.InFlight | crates/relaystar-relay/src/fragment.rs:318-321 | Counts exactly the open groups. |
| SlotArray.Reassembler.SlotInvariant | crates/relaystar-relay/src/fragment.rs:146-182 | Between calls every slot in use has 1 <= received < total <= 64, received equal to the population count of a mask with no bit at or above total, empty unset buckets, a header, and a group of its own; a free slot is empty. |
| Seen.SeenCache.constructor | crates/relaystar-proto/src/lib.rs:287-294 | A new cache of any size remembers nothing. |
| Seen.SeenCache.Contains | crates/relaystar-proto/src/lib.rs:296-304 | Answers yes exactly for the last min(k, N) recorded ids. |
| Seen.SeenCache.Insert | crates/relaystar-proto/src/lib.rs:306-311 | Recording an id appends it to the history that the ring spells. |
| Seen.SeenCache.CheckAndInsert | crates/relaystar-proto/src/lib.rs:313-322 | New exactly when not among the last N recorded; new ids are recorded, others change nothing. |
| Seen.RunIsSpaced | crates/relaystar-proto/src/lib.rs:313-322 | On every run of it, at least N recordings of other ids lie between two recordings of one id. |
| Seen.RingHoldsDistinctIds | crates/relaystar-proto/src/lib.rs:313-322 | So the ids in the ring are pairwise distinct. |
| Seen.CountBound | crates/relaystar-proto/src/lib.rs:270-322 | An id recorded c times takes more than (c - 1)(N + 1) recordings. |
| Dedup.KeysCollideIff | crates/relaystar-relay/src/lib.rs:404-409 | Two slices share a key exactly when the low halves of their ids agree and the high halves differ where the slice numbers do. |
| Dedup.SlicesKeepApart | crates/relaystar-relay/src/lib.rs:404-409 | Slices of one message share a key only if they are the same slice. |
| Dedup.SliceZeroKey | crates/relaystar-relay/src/lib.rs:406-409 | Slice 0 and the unsliced message have the same key. |
| Dedup.OneNodeKeysUnique | crates/relaystar-relay/src/lib.rs:406-409 | Keys of the first 2^16 ids of a node agree only for the same id and slice. |
| Dedup.OneNodeKeysCollide | crates/relaystar-relay/src/lib.rs:406-409 | Beyond that they do not: slice 1 of an id collides with the id allocated 2^16 later. |
| Outcomes.CollisionSuppresses | crates/relaystar-relay/src/lib.rs:404-412 | So at a fresh relay that hears such a slice, the later message of the same node is dropped as a repeat although it arrives whole. |
| Dedup.TwoNodeKeysDisjoint | crates/cardputer-fw/src/bridge.rs:42-43 | Nodes with different top id bytes never share a key while each has drawn fewer than 2^24 ids. |
| Receivers.ReceiverTable.constructor | crates/relaystar-relay/src/receivers.rs:93-98 | A new table knows no peer. |
| Receivers.ReceiverTable.Lookup | crates/relaystar-relay/src/receivers.rs:115-118 | Finds the one row of a known peer, whose bits are its transports. |
| Receivers.ReceiverTable.Add | crates/relaystar-relay/src/receivers.rs:120-144 | Adds the transport to the peer's set, creating the peer if there is room; full table and repeats are reported. |
| Receivers.AddMeans | crates/relaystar-relay/src/receivers.rs:120-144 | Adding keeps the other transports and peers, fails only for a stranger when the table is full, and tells whether the transport is new. |
| Receivers.ReceiverTable.RemoveTransport | crates/relaystar-relay/src/receivers.rs:153-165 | Removes one transport, and the peer with its last one. |
| Receivers.RemoveMeans | crates/relaystar-relay/src/receivers.rs:153-165 | Removing keeps the other transports and peers, and drops a peer exactly with its last transport. |
| Receivers.ReceiverTable.Remove | crates/relaystar-relay/src/receivers.rs:167-175 | Removes the peer and nothing else, although the last row takes its place. |
| Receivers.InsertBit | crates/relaystar-relay/src/receivers.rs:49-54 | Setting a transport's bit adds exactly that transport. |
| Receivers.RemoveBit | crates/relaystar-relay/src/receivers.rs:56-61 | Clearing it removes exactly that transport. |
| Receivers.InOrderMembers | crates/relaystar-relay/src/receivers.rs:71-75 | Iteration yields each member of the set once. |
| RelayEngine.Relay.constructor | crates/relaystar-relay/src/lib.rs:149-162 | A new relay has seen nothing, knows no one and has no ports. |
| RelayEngine.Relay.NextId | crates/relaystar-relay/src/lib.rs:169-174 | Gives base plus counter and advances the counter, both wrapping at 2^32. |
| RelayEngine.Relay.RegisterPort | crates/relaystar-relay/src/lib.rs:185-188 | Adds one port and changes nothing else. |
| RelayEngine.Relay.UnregisterPort | crates/relaystar-relay/src/lib.rs:191-193 | Removes one port and changes nothing else. |
| RelayEngine.Relay.Ingest | crates/relaystar-relay/src/lib.rs:391-422 | The composed receive path on bytes: decode, learn, deduplicate, reassemble, route, in this order and with these answers, on every frame. |
| Answers.AnswerByAddress | crates/relaystar-relay/src/lib.rs:424-430 | A message is reported as complete only if it is for this node or a broadcast, and as not for this node only if it is neither. |
| Answers.EveryAnswer | crates/relaystar-relay/src/lib.rs:391-422 | Each frame's answer: an error for bytes that are no message, a duplicate exactly for a remembered key, an unsliced or completed message by its address, and the reassembler's word for any other slice; and what is recorded. |
| Answers.HearingTeaches | crates/relaystar-relay/src/lib.rs:400-402 | Every message, repeats included, adds its arrival transport to those of its sender and changes nothing else; nothing is learned from the own or the broadcast address, or from a stranger when the table is full. |
| RelayEngine.Relay.ResolveTargets | crates/relaystar-relay/src/lib.rs:436-465 | The registered ports, for unicast those on which the peer is reachable, in the fixed order; or the right error. |
| RelayEngine.Relay.PlanSend | crates/relaystar-relay/src/lib.rs:254-290 | The loops build just the specified plan, draw just the specified ids, and never run out of plan capacity. |
| RelayEngine.Relay.PlanForward | crates/relaystar-relay/src/lib.rs:297-323 | The same for forwarding. |
| Planning.PlanSendCorrect | crates/relaystar-relay/src/lib.rs:254-290 | A send succeeds exactly when there are targets and the payload fits one message; then each target transport and no other, in the fixed order, carries the whole message within its mtu, all frames share one message id, and the group ids of the splits differ from it and from each other. |
| Planning.TargetsDistinct | crates/relaystar-relay/src/lib.rs:436-465 | Targets are nonempty, in the fixed order, without repeats, and exactly the registered and, for unicast, reachable transports. |
| Planning.TargetsDecided | crates/relaystar-relay/src/lib.rs:436-465 | There are targets exactly when a port is registered and, for one peer, it is known on a registered transport; otherwise the error says which is missing. |
| Planning.SendHeaders | crates/relaystar-relay/src/lib.rs:264-285 | A broadcast is addressed to all and to the broadcast address, any other message to its peer, with the own address as sender, four hops, the kind, and the transport as origin. |
| Planning.PlanForwardCorrect | crates/relaystar-relay/src/lib.rs:292-323 | A forward plan is empty exactly when no hop is left; otherwise it carries the message with one hop less on the target only, and passes a fragment on as it is. |
| Planning.ForwardHeaders | crates/relaystar-relay/src/lib.rs:302-322 | A broadcast is passed on to all, any other message to its addressee; but for one hop less the header stays. |
| Planning.HeardPeerIsReachable | crates/relaystar-relay/src/lib.rs:400-402 | Having heard a peer on a registered transport, with the peer known or room left, the relay can send to it there. |
| Planning.GroupsAreDrawn | crates/relaystar-relay/src/lib.rs:274-278 | Every fragment a call makes carries the group id that this very call drew for its transport. |
| Planning.DrawnIdsFresh | crates/relaystar-relay/src/lib.rs:169-174 | In any interleaving of calls drawing at most 2^32 ids, any two draws, of one call or of two, give different ids, although the counter wraps. |
| Planning.SplitsNeverShareGroup | crates/relaystar-relay/src/lib.rs:264-312 | So splits for two transports of one call, or of two calls, never share a group id, and no group id is the message id of a send. |
| Planning.SendsNeverShareId | crates/relaystar-relay/src/lib.rs:264 | Nor do two sends share a message id. |
| AtMostOnce.DeliveredAtMostOnce | crates/relaystar-relay/src/lib.rs:396-422 | On every run in which fragments of a group carry one id, a message is delivered no more often than its id was recorded, so n deliveries take more than 65(n - 1) fresh frames. |
| AtMostOnce.StepPays | crates/relaystar-relay/src/lib.rs:404-420 | One frame: a delivery of an id, or a newly held slice 0 of it, is paid for by a fresh recording of the id. |
| Versions.FloodDelivery | crates/relaystar-relay/src/lib.rs:396-422 | A message in any number of versions, sliced under different groups and unsliced, with repeats and among other traffic: over all answers it is delivered once, as the version whose copies come first for all its slice numbers, and not at all if there is none; every other version that wins a number keeps its slot. |
| Versions.VersionStep | crates/relaystar-relay/src/lib.rs:404-420 | One arrival in such a run, whatever it is: its answer, whether it delivers, and what is remembered and held afterwards. |
| ExactlyOnce.DeliveredExactlyOnce | crates/relaystar-relay/src/lib.rs:396-422 | Frames in any order, repeated, among traffic of other messages: counted over all answers of the run, the message is delivered exactly once if all frames arrive and not at all otherwise, as sent but for the origin; all other copies are buffered or duplicates, and no slot stays taken. |
| ExactlyOnce.DeliveredInEitherForm | crates/relaystar-relay/src/lib.rs:396-422 | The same with unsliced copies of the message about: delivered exactly once if all frames arrive or such a copy comes before the first frame, and not at all otherwise; and exactly when the slot stays taken. |
| Transfers.SentFramesArrive | crates/relaystar-relay/src/fragment.rs:40-108 | Splitting for a transport and encoding yields bytes that arrive as parts of a sound transfer. |
| EndToEnd.SentIsDeliveredOnce | crates/relaystar-relay/src/lib.rs:254-290 | From `plan_send` to all answers of another relay that hears any of the transports used: exactly once, with the composed message, or not at all, and when. |
| EndToEnd.PlanIsExpected | crates/relaystar-relay/src/lib.rs:274-288 | Every frame of a plan is, as it arrives, a part of the one sliced transfer or the message in one piece. |
| EndToEnd.BothFormsSent | crates/relaystar-relay/src/lib.rs:274-288 | A send of 181 to 200 bytes over LoRa and another transport puts two slices and an unsliced copy on the air. |
| EndToEnd.BroadcastOverBoth | crates/relaystar-relay/src/lib.rs:436-446 | Any broadcast of 181 to 200 bytes with LoRa and another port registered is such a send. |
| Outcomes.OneSendFourOutcomes | crates/relaystar-relay/src/lib.rs:404-420 | At a fresh receiver that send is delivered and strands a slot, is delivered and clears up, is not delivered although it arrived whole, or is delivered twice, depending on order, loss and delay. |
| Outcomes.ForwardersInterleave | crates/cardputer-fw/src/bridge.rs:217-235 | Two bridges forward a sliced message over LoRa: with interleaved slices nothing is delivered and both slots stay taken, in turn it is delivered once and none does. |
| MultiHop.HopDelivers | crates/relaystar-relay/src/lib.rs:297-323 | Over all its answers the next relay delivers the message exactly once, and what it hands out is the message with one hop less and the new origin, by its address. |
| MultiHop.JourneyPreserves | crates/relaystar-relay/src/lib.rs:297-323 | After k hops payload, id, addresses and kind are as sent, k hops are spent, and the forward plan is empty exactly when none is left. |
| DedupLimits.RepeatRecognisedIff | crates/relaystar-relay/src/lib.rs:404-412 | A frame with the key of one taken before, of the same message or another, is answered as a repeat if and only if fewer than 64 other frames were fresh in between. |
| DedupLimits.BoundIsReached | crates/relaystar-relay/src/lib.rs:404-412 | A fresh relay that hears 65 messages in a cycle takes and delivers every frame, so n deliveries of one message need no more than 65(n - 1) + 1 frames. |
| DedupLimits.RefusedSliceIsLost | crates/relaystar-relay/src/lib.rs:410-420 | A slice refused for lack of a slot is dropped as a repeat when sent again if and only if fewer than 64 other frames were fresh in between; afterwards the reassembler answers. |
| Outcomes.SlotsRunOut | crates/relaystar-relay/src/fragment.rs:221-225 | One node sends sliced messages and only first slices arrive: a fresh relay buffers one for each slot and refuses the next. |
| DedupLimits.SecondFormStrandsSlot | crates/relaystar-relay/src/lib.rs:404-420 | If all slices of a message arrive, it is delivered once, and its slot stays taken if and only if the unsliced form comes before slice 0, which is then all that is missing. |
| DedupLimits.SlicesSuppressWhole | crates/relaystar-relay/src/lib.rs:404-420 | A message whose unsliced form arrives is not delivered if and only if slice 0 came before it and another slice is lost. |
| DedupLimits.LateSliceDeliversAgain | crates/relaystar-relay/src/lib.rs:404-420 | A stranded slot is freed by a late copy of slice 0 exactly when the message is no longer among the last 64 recorded keys; then the message is delivered twice. |
| Wire.MessageRoundTrip | crates/relaystar-proto/src/lib.rs:242-253 | Decoding an encoded well-sized message gives it back, whatever bytes follow. |
| Wire.DecodesIff | crates/relaystar-proto/src/lib.rs:242-253 | Bytes decode to a message exactly when they begin with its fields in order, the numbers in any bounded spelling, known variants only, and at most 200 bytes of payload; everything else is undecodable. |
| Wire.EncodingIsLayout | crates/relaystar-proto/src/lib.rs:242-253 | Encoding writes the fields so, with each number in its shortest spelling. |
| Wire.FitsFrame | crates/relaystar-proto/src/lib.rs:18-22 | Every well-sized message takes at most 234 bytes, so a 255-byte buffer never fails. |
| Wire.EncodeIntoIff | crates/relaystar-proto/src/lib.rs:242-247 | Encoding fails, with the small-buffer error, exactly when the message does not fit the buffer. |
| Wire.LoraFrameSize | crates/relaystar-proto/src/lib.rs:80-90 | A LoRa frame cut from an unsliced message takes at most 210 bytes. |
| BridgeLoop.BridgeNode.constructor | crates/cardputer-fw/src/bridge.rs:163-173 | The bridge starts with all three ports registered and empty channels. |
| BridgeLoop.BridgeNode.EnqueueFrame | crates/cardputer-fw/src/bridge.rs:115-132 | The frame goes to the channel of its transport, or is dropped when that is full. |
| BridgeLoop.BridgeNode.FanoutForward | crates/cardputer-fw/src/bridge.rs:217-235 | The loop over all transports but the source does what the specification says. |
| BridgeLoop.BridgeNode.HandleFrame | crates/cardputer-fw/src/bridge.rs:175-212 | One turn of the bridge loop: show what is for this node, forward broadcasts and messages for others. |
| Forwarding.BridgeForwards | crates/cardputer-fw/src/bridge.rs:175-235 | A broadcast, or a message for another node, with hops left is queued for each other transport as the frames that carry it there with one hop less, addressed by the message, behind what waits already, as far as the eight places go. |
| Forwarding.BridgeStaysStill | crates/cardputer-fw/src/bridge.rs:175-235 | Any other frame leaves all queues alone, and none is ever queued for the transport it came over. |
| Forwarding.BridgeShows | crates/cardputer-fw/src/bridge.rs:192-200 | A message is shown exactly when it is handed out, is for this node or for all, and there is room. |
| Forwarding.BridgeDraws | crates/cardputer-fw/src/bridge.rs:217-235 | The engine is left as by ingesting, but for one id drawn for each transport forwarded to. |
| BridgeSpec.SourceQueueUntouched | crates/cardputer-fw/src/bridge.rs:215-221 | Handling a frame never puts anything on the queue of the transport it came from. |
| Mesh.HandleRawPays | crates/cardputer-fw/src/bridge.rs:175-235 | What a received frame causes in queues and slots weighs less than the frame itself. |
| Mesh.StepDecreases | crates/cardputer-fw/src/bridge.rs:175-235 | Every reception, transmission or loss lowers the weight of the mesh, whatever the seen caches remember. |
| Mesh.FloodTerminates | crates/cardputer-fw/src/bridge.rs:163-235 | Under every schedule, loss and bounded duplication, and with seen caches forgetting at will, no run is longer than the weight of its first state. |
| Leb128.RoundTrip | crates/relaystar-relay/src/ports/mqtt.rs:443-459 | Decoding finds the encoded number and stops right behind it. |
| Leb128.EncodedLength | crates/relaystar-relay/src/ports/mqtt.rs:402-417 | A number takes at most k bytes exactly when it is below 128^k. |
| Leb128.EncodingIsShortest | crates/relaystar-relay/src/ports/mqtt.rs:402-417 | No bytes that decode to a number are fewer than the encoder's. |
| Mqtt.RemainingLength | crates/relaystar-relay/src/ports/mqtt.rs:402-459 | One to four length bytes exactly up to 268435455, read back with just those bytes consumed. |
| Mqtt.WriteRemainingLen | crates/relaystar-relay/src/ports/mqtt.rs:402-417 | The loop appends that encoding, or fails exactly when it does not fit. |
| Mqtt.Client.ReadLength | crates/relaystar-relay/src/ports/mqtt.rs:443-459 | The decoder loop reads the number, never more than 268435455, stops within four bytes on any input, and tells a short stream from a malformed length. |
| Mqtt.Client.SendFrame | crates/relaystar-relay/src/ports/mqtt.rs:419-431 | Writes the whole packet, or nothing when it exceeds 320 bytes. |
| Mqtt.Client.Publish | crates/relaystar-relay/src/ports/mqtt.rs:336-345 | Writes the PUBLISH packet, or nothing when it is refused. |
| Mqtt.PublishBytes | crates/relaystar-relay/src/ports/mqtt.rs:336-345 | A published packet is type 0x30, its remaining length, the topic length with the high byte first, the topic, and the payload to the end. |
| Mqtt.Client.ReadPacket | crates/relaystar-relay/src/ports/mqtt.rs:433-469 | Consumes exactly one packet, with the code's errors in the code's order. |
| Mqtt.Client.ReadPublish | crates/relaystar-relay/src/ports/mqtt.rs:368-388 | Reads one packet and decodes a PUBLISH; other packets are consumed and reported as nothing. |
| Mqtt.AnyPacketRead | crates/relaystar-relay/src/ports/mqtt.rs:368-388 | Any packet that fits is taken off the stream just so: nothing for other types, the publication for any flags, and malformed exactly when the topic length is missing, overruns the packet, or the topic is no UTF-8. |
| Mqtt.MixedStreamRead | crates/relaystar-relay/src/ports/mqtt.rs:368-388 | A stream that mixes publishes with PINGRESP and other packets is read back in order. |
| Mqtt.PingResponse | crates/relaystar-relay/src/ports/mqtt.rs:364-376 | A PINGRESP is consumed and reported as no publication, whatever follows it and whatever the buffer. |
| Mqtt.PacketRead | crates/relaystar-relay/src/ports/mqtt.rs:433-469 | A packet that fits is returned; the contents of one that does not are left on the stream. |
| Mqtt.ShortStream | crates/relaystar-relay/src/ports/mqtt.rs:433-469 | A stream that ends within a packet is an I/O error and used up. |
| Mqtt.LongLength | crates/relaystar-relay/src/ports/mqtt.rs:443-459 | Four length bytes that all announce another are malformed, and just they are taken. |
| Utf8.ValidIff | crates/relaystar-relay/src/ports/mqtt.rs:384-385 | The topic test accepts exactly the UTF-8 encodings of character sequences, by RFC 3629. |
| Mqtt.PublishRefusedIff | crates/relaystar-relay/src/ports/mqtt.rs:329-345 | A publish is refused exactly when 2 + topic + payload exceeds 317 bytes. |
| Topics.UnicastFor | crates/relaystar-relay/src/ports/mqtt.rs:55-69 | Writes the unicast topic of the address to the front of the buffer and leaves the rest, or refuses a buffer below 24 bytes. |
| Topics.TopicText | crates/relaystar-relay/src/ports/mqtt.rs:45-78 | The topics are `relaystar/b`, and `relaystar/u/` with twelve lower-case hexadecimal digits of the address. |
| Topics.TopicsDiffer | crates/relaystar-relay/src/ports/mqtt.rs:125-137 | Two destinations have the same topic only if they are the same. |
| Topics.MeshFramesFit | crates/relaystar-relay/src/ports/mqtt.rs:208-213 | Every mesh frame can be published under every topic of the scheme. |
| Topics.MeshFramesArrive | crates/relaystar-relay/src/ports/mqtt.rs:125-137 | And who reads the stream finds the topic, and in the payload the message. |
| Mqtt.PublishRoundTrip | crates/relaystar-relay/src/ports/mqtt.rs:336-388 | One published packet is read back, and exactly it. |
| Mqtt.StreamRoundTrip | crates/relaystar-relay/src/ports/mqtt.rs:336-469 | Any sequence of accepted publishes is read back in order, whatever follows on the stream. |

## Left out

- Versions.FloodDelivery: assumes that other traffic, and every group open at the start, is of other messages, and uses other keys and groups, because the code cannot tell them apart otherwise; `Outcomes.OneSendFourOutcomes` shows a second delivery from a group left open, and `Outcomes.CollisionSuppresses` what a shared key does.
- ExactlyOnce.DeliveredInEitherForm: one sliced version and unsliced copies only; `Versions.FloodDelivery` is the general case.
- Reassembly timeouts: the relay never evicts, so slots are not claimed to drain.
- Seen.SeenCache.Insert: needs a cache of at least one cell; in one of size zero the code would index an empty array.
- Wire.MessageRoundTrip: vector lengths are read as on a 32-bit target; a 64-bit host accepts longer encodings of the same lengths.
- `Relay::send`, `forward` and `emit`: the planner's logic once more, through a port.
- Socket write errors, asynchronous execution, locks and wakers: every locked section is one step, and a write succeeds.
- MQTT CONNECT, SUBSCRIBE and PINGREQ, and inbound packets with QoS above 0: no deeper property than PUBLISH.
- Display lines, keyboard, radio drivers and start-up: plumbing; the display feed holds the messages themselves.
- The legacy MQTT uplink and downlink of the Cardputer firmware: they inject and print plain text and add no frames of the mesh.
