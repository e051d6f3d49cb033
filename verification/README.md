# Verified model of the stand, wire, trace and memory components

A Dafny model of the parts of the repository that other parts must be able to rely on without looking
inside: who gets which board, which lease may run, what a damaged frame or record turns into, and who
owns a buffer at every step of an interleaving. Every file verifies with

    dafny verify dfyconfig.toml

## How it is organised

| files | component |
|---|---|
| `Kuhn`, `BoardMatching` | matching of needed boards to offered ones (`hil/model/src/resources.rs`) |
| `ShiftRegister`, `Crc32c` | CRC-32C (section 12.1 of RFC 3720) as the bitwise loop computes it |
| `Cobs`, `Framing`, `FrameCodec` | the serial framing (`hil/protocol/src/framing.rs`) |
| `TraceOrder`, `RingOrder`, `TraceStore`, `TraceWrap`, `TraceRing`, `TraceRecorder`, `TornRead` | the retained trace (`crates/trace/src/store.rs`) |
| `Spsc`, `TxPool`, `TxPublication`, `ExternalRx`, `Custody` | queues, slot pools and custody (`crates/memory`) |
| `Spectrum`, `Claims`, `ClaimNormal` | what leases claim (`stand/claims`) |
| `LeaseQueue`, `ExpectedStarts`, `Settlement`, `Arbiter`, `StandArbiter` | the lease arbiter (`stand/arbiter`) |
| `Utf8`, `PostMortem`, `CheckpointRing`, `BootRecord` | the post-mortem record (`hil/agent/src/postmortem.rs`) |
| `Wrappers`, `Bytes`, `Arithmetic`, `Sets`, `Sorting` | shared helpers |

Code that runs on one thread and changes things in place is a method or a class proved against a
function of the old value. Code whose steps interleave (the queue, the two pools, the torn read) is a
state machine of atomic steps, each taken by whoever holds the permit or lease it needs; results about
it are over every run. The arbiter's order and schedule results hold for any symmetric conflict between
claims; `StandArbiter` instantiates them with the stand's own.

## Where the code and its documentation differ

The model follows the code.

- `crates/trace/src/lib.rs:159-161` says that only the first freeze of a run counts. A first freeze with
  `post` equal to `u32::MAX` leaves the window as it was while running, so a later one replaces it.
  `TraceStore.FirstFreezeCountsIff` gives the exact condition.
- `stand/claims/src/lib.rs:124` takes an exclusive air claim to hold every range, and `covers` is
  documented as holding everything in `inner`. `conflict` ignores the air claim when both sides carry
  ranges, so a lease can cover a range it keeps nobody out of (`Claims.AirShortcutExposes`, with claims
  as a range is made into them). `Claims.CoversProtectsInOrderIff` gives the exact condition under which
  covering claims protect when ranges have their ends in order, `Claims.CoversProtectsIff` when the ends
  may come in any order, which the code accepts.
- `crates/memory/src/pinned_tx.rs:469-471` says that bytes written by a failed publication can never be
  observed by a radio owner. The next writer is lent the same bytes, and if it leaves any of them the
  radio sees them (`TxPublication.FailedBytesLeak`). `TxPublication.FailuresHiddenIff`: they stay hidden
  exactly if the writer that publishes overwrites all it is lent.
- `crates/trace/src/store.rs:513-515` promises write order for the records of one trace, by tags that span
  less than half the tag period. Past a wrap of the 32-bit sequence a ring can hold two neighbours with one
  tag (`TraceWrap.TiedPairMisread`), or, because the slots shift at the wrap unless the ring's size divides
  2^32, records further apart than that with all tags different (`TraceWrap.NewerReadFirst`); both are read
  in the wrong order. `TraceWrap.RingRightIff` gives the exact condition on the ring's size and the number
  of records, over any number of wraps and for every loss: fewer than 2^32 records, or none past the last
  wrap, or at least a ring of them, or, with p of them past it and s the remainder of 2^32 by the size,
  0 < s <= p and size + s - 2 at most half the tag period.

## Model

| member | source | states |
|---|---|---|
| `BoardMatching.Augment` | hil/model/src/resources.rs:125-143 | a search terminates; on success the owners are a matching that serves the need and every need served before, and no board of a dead set moved; on failure no owner changed and everything the need fits was seen and is owned |
| `BoardMatching.Serve` | hil/model/src/resources.rs:152-158 | one need's search succeeds exactly if the need enlarges the maximum matching of the needs before it |
| `BoardMatching.UnmetNeeds` | hil/model/src/resources.rs:150-176 | the boards reported are exactly the needs that enlarge no maximum matching, and needs minus reports is the size of a maximum matching |
| `BoardMatching.UnmetOf` | hil/model/src/resources.rs:150-183 | unmatched boards, then missing fixtures, in order; nothing exactly if some injective assignment gives every need a fitting board and every fixture is offered |
| `BoardMatching.NothingUnmetIffRunnable` | hil/model/src/resources.rs:146-149 | a maximum matching that leaves no need out, with no fixture missing, is the same as a stand that can run the scenario |
| `BoardMatching.RunnableMeaning` | hil/model/src/resources.rs:111-121 | a scenario can run exactly if some injective assignment gives every need a board of its chip, in its role and with all its capabilities, and every fixture is offered |
| `BoardMatching.CandidatesMeaning` | hil/model/src/resources.rs:159-169 | the lists considered are those a board of the chip and role lacks |
| `BoardMatching.MissingMeaning` | hil/model/src/resources.rs:159-170 | the reported list is one such board's and a shortest, empty exactly if no board takes the role or one has everything |
| `BoardMatching.UnmetFixturesMeaning` | hil/model/src/resources.rs:177-181 | a fixture is reported exactly if it is wanted and not offered |
| `Kuhn.AugmentedThrough` | hil/model/src/resources.rs:136-139 | taking over a board whose owner moved on keeps a matching and serves one need more |
| `Kuhn.HallBound` | hil/model/src/resources.rs:125-143 | the boards seen by failed searches bound every matching: no assignment serves more |
| `Kuhn.AllServedIffAssignable` | hil/model/src/resources.rs:146-149 | a maximum matching serves all needs exactly if some assignment does |
| `ShiftRegister.Register.FeedInjective` | hil/agent/src/postmortem.rs:120-127 | every byte's step is injective on states |
| `ShiftRegister.Register.BurstDetected` | hil/agent/src/postmortem.rs:115-145 | no sealed message stays sealed when up to four consecutive bytes of it, checksum included, change |
| `Crc32c.WordUpdate` | hil/agent/src/postmortem.rs:120-127 | four bytes act as one little-endian word mixed into the state |
| `Crc32c.IsLawful` | hil/agent/src/postmortem.rs:118-127 | the reflected polynomial's step is linear and injective, so the register's laws hold |
| `Crc32c.UpdateByte` | hil/agent/src/postmortem.rs:121-126 | the masked inner loop is eight register steps |
| `Crc32c.UpdateLoop` | hil/agent/src/postmortem.rs:120-127 | the byte loop computes the register over a slice |
| `Crc32c.ChecksumOfZero` | hil/agent/src/postmortem.rs:118-140 | the checksum of one zero byte is 0x527D5351, which pins polynomial, start and complement |
| `Crc32c.BurstDetected` | hil/protocol/src/framing.rs:403-411 | a message with its stored checksum fails the check after any change within four consecutive bytes |
| `Crc32c.BurstChangesChecksum` | hil/agent/src/postmortem.rs:115-140 | equal-length messages that differ only within four consecutive bytes have different checksums |
| `Cobs.EncodeZeroFree` | hil/protocol/src/framing.rs:190-200 | the stuffed bytes hold no delimiter |
| `Cobs.EncodeLength` | hil/protocol/src/framing.rs:24-25 | stuffing adds one byte and one for every 254 |
| `Cobs.RoundTrip` | hil/protocol/src/framing.rs:374-378 | decoding undoes encoding for every byte sequence |
| `Cobs.Stuffed` | hil/protocol/src/framing.rs:195-198 | three encodings written out |
| `Framing.ParseOfRaw` | hil/protocol/src/framing.rs:370-424 | a frame parses back to itself in its own direction and is refused in the other |
| `Framing.RawOfParse` | hil/protocol/src/framing.rs:370-424 | whatever is accepted is the encoding of the frame it is accepted as |
| `Framing.ParseIff` | hil/protocol/src/framing.rs:370-424 | bytes are accepted as a frame exactly if they are its encoding |
| `Framing.HeaderFields` | hil/protocol/src/framing.rs:171-186 | each header field lies at its offset, little-endian |
| `Framing.ParseErrors` | hil/protocol/src/framing.rs:370-411 | which bytes are refused as too short, of another magic, version or direction, or of another length than announced, in this order of precedence |
| `Framing.DamageRejected` | hil/protocol/src/framing.rs:403-411 | a frame damaged within four consecutive bytes is refused in either direction |
| `Framing.EncodedFits` | hil/protocol/src/framing.rs:19-25 | every frame's stuffed form fits the decoder's buffer and holds no delimiter |
| `Framing.FeedConcat` | hil/protocol/src/framing.rs:320-368 | how a stream is cut into chunks does not matter |
| `Framing.Resynchronises` | hil/protocol/src/framing.rs:320-368 | from every reachable state one encoded frame ends with a callback carrying exactly it; only a body under way causes another before it |
| `Framing.ResynchronisesAfterAnything` | hil/protocol/src/framing.rs:316-368 | after any bytes at all the next encoded frame is delivered, with at most one callback between |
| `Framing.MixedStream` | hil/protocol/src/framing.rs:320-368 | an idle decoder takes any mix of frames and zero-free text to exactly those frames, without errors |
| `Framing.BodyDelivered` | hil/protocol/src/framing.rs:344-356 | an armed decoder hands on every zero-free body of 1 to 607 bytes whole, at its delimiter |
| `Framing.OverlongDropped` | hil/protocol/src/framing.rs:358-366 | a longer one is dropped up to its delimiter with one overflow and no callback |
| `FrameCodec.FrameEncoder.Complete` | hil/protocol/src/framing.rs:171-201 | the buffers end up holding two delimiters, the stuffed sealed frame and its delimiter |
| `FrameCodec.FrameDecoder.Feed` | hil/protocol/src/framing.rs:320-368 | state, callbacks and counters after a chunk are those of the byte-wise machine |
| `FrameCodec.FrameDecoder.Deliver` | hil/protocol/src/framing.rs:340-359 | a delimiter hands over exactly the collected body, decoded, and erases the buffer |
| `FrameCodec.CountConcat` | hil/protocol/src/framing.rs:340-359 | the counters of a stream do not depend on its chunks |
| `FrameCodec.CountersCount` | hil/protocol/src/framing.rs:370-412 | every counter is the number of its own outcomes, saturated at 32 bits |
| `TraceOrder.TagForm` | crates/trace/src/store.rs:25-27 | tags rise with the sequence and start over at most once in a ring |
| `TraceOrder.WidestIsOldest` | crates/trace/src/store.rs:513-531 | the widest cyclic tag gap lies before the oldest record, and nowhere else |
| `TraceOrder.WidestGap` | crates/trace/src/store.rs:518-529 | the loop finds a widest gap |
| `TraceOrder.OldestFirst` | crates/trace/src/store.rs:513-531 | sorting and rotating in place restores the exact write order of any surviving records, across the tag wrap |
| `TraceStore.RunsUnfrozen` | crates/trace/src/store.rs:299-346 | without an effective freeze every record is stored |
| `TraceStore.FreezeWindow` | crates/trace/src/store.rs:299-346 | the first freeze below u32::MAX is followed by exactly `post` stored records or all that come, then none; later freezes change nothing; the trigger tag is that of the first record after it |
| `TraceStore.FirstFreezeCountsIff` | crates/trace/src/store.rs:329-346 | later freezes are ignored exactly if the first asked for less than u32::MAX |
| `TraceRing.RingGrows` | crates/trace/src/store.rs:299-316 | a stored record keeps every slot holding the last record written to it, over any number of records |
| `TraceRing.RingBeforeWrap` | crates/trace/src/store.rs:299-316 | up to the first wrap those are the newest records, side by side |
| `TraceRing.ReadsHeld` | crates/trace/src/store.rs:403-405 | what is read after any loss are records held, each once, under their own numbers |
| `RingOrder.SameRead` | crates/trace/src/store.rs:403-405 | whatever entries read as, storage order reads the newest records that write order reads, filling or full |
| `TraceStore.ReadsBackInOrder` | crates/trace/src/store.rs:128-131 | for every geometry, run and loss, the surviving newest records in write order are a rearrangement of what storage order reads |
| `TraceWrap.TagOfVirtual` | crates/trace/src/store.rs:25-27 | the tag of a record is that of its number less one for each wrap |
| `TraceWrap.VirtualGrows` | crates/trace/src/store.rs:25-27 | only the neighbours across a wrap share a virtual number |
| `TraceWrap.AlwaysRightIff` | crates/trace/src/store.rs:513-531 | of records closer than a tag period, whatever they say, however they are sorted and whichever survive, the write order comes back exactly if no two share a virtual number and none are further apart than half the period |
| `TraceWrap.HeldWithinPeriod` | crates/trace/src/store.rs:310-316 | what any ring holds after any number of records is closer than a tag period |
| `TraceWrap.RingRightIff` | crates/trace/src/store.rs:299-531 | for every ring and every number of records, whatever survives is read in write order exactly under a condition on the two numbers |
| `TraceWrap.TiedPairMisread` | crates/trace/src/store.rs:513-531 | a ring of two, one record past the wrap, can be misread |
| `TraceWrap.NewerReadFirst` | crates/trace/src/store.rs:513-531 | a ring of 24000, 23296 records past the wrap, with nothing lost and all tags different, is read with the newer records first |
| `TraceRecorder.Trace.constructor` | crates/trace/src/store.rs:193-209 | a new trace is held, over storage left as it is |
| `TraceRecorder.Trace.Restart` | crates/trace/src/store.rs:263-283 | clears the storage and records from the start |
| `TraceRecorder.Trace.Record` | crates/trace/src/store.rs:299-321 | stores while the window lasts and says when it ended |
| `TraceRecorder.Trace.Freeze` | crates/trace/src/store.rs:329-346 | opens the window once and says when recording must stop at once |
| `TraceRecorder.Trace.Records` | crates/trace/src/store.rs:403-405 | reads the complete entries in storage order |
| `TraceRecorder.Trace.Drain` | crates/trace/src/store.rs:513-531 | whatever entries were lost and however long the run, what a later boot reads are records held, each once, under their own numbers, and in write order wherever the ring keeps order; up to the first wrap they are the surviving newest |
| `TornRead.ReadsAreWhole` | crates/trace/src/store.rs:60-86 | in every interleaving a read overlapped by fewer than the tag period less the ring size of records returns nothing or one complete write |
| `TornRead.ResetIsWhole` | crates/trace/src/store.rs:60-68 | in every interleaving a reset leaves nothing or one complete write |
| `TornRead.ResetMidWrite` | crates/trace/src/store.rs:60-68 | after any prefix of a write's stores the slot reads as the old entry, nothing, or the new entry |
| `TornRead.SameTagIsFar` | crates/trace/src/store.rs:25-31 | equal commit words of different writes are a tag period apart |
| `Spsc.DistanceIsCount` | crates/memory/src/affine_spsc.rs:116-122 | cursors modulo twice the depth tell full from empty and count exactly |
| `Spsc.AdvanceIsNext` | crates/memory/src/affine_spsc.rs:124-130 | a cursor advances as the count it reduces |
| `Spsc.AlwaysSafe` | crates/memory/src/affine_spsc.rs:132-172 | no step overwrites a live value or reads an empty cell |
| `Spsc.QueueIsFifo` | crates/memory/src/affine_spsc.rs:132-172 | in every interleaving, permits held across consumer steps included, received values followed by queued ones are the sent ones in order |
| `Spsc.ObservedCapacityHolds` | crates/memory/src/affine_spsc.rs:251-286 | capacity the sender once saw is still there when it reserves |
| `Spsc.DecidedByCount` | crates/memory/src/affine_spsc.rs:110-172 | at every moment of every run the free capacity is the depth less the values queued, a reservation is refused exactly when it is full and a receiver finds nothing exactly when it is empty |
| `Spsc.AffineSpscQueue.TrySend` | crates/memory/src/affine_spsc.rs:146-153 | sends one value more, or refuses a full queue and changes nothing |
| `Spsc.AffineSpscQueue.TryReceive` | crates/memory/src/affine_spsc.rs:155-172 | receives the oldest queued value, or reports an empty queue |
| `Spsc.AffineSpscQueue.Length` | crates/memory/src/affine_spsc.rs:110-114 | the number of queued values |
| `Spsc.AffineSpscQueue.Drain` | crates/memory/src/affine_spsc.rs:181-199 | destruction drops exactly the values sent and not received, oldest first |
| `Spsc.DropAfterRun` | crates/memory/src/affine_spsc.rs:181-199 | after any interleaving of the endpoints that leaves neither in a step, destruction drops exactly what is queued |
| `TxPool.AssertionsHold` | crates/memory/src/pinned_tx.rs:91-101 | no claim, publish or release by a holder finds another state than it expects |
| `TxPool.RunKeeps` | crates/memory/src/pinned_tx.rs:322-400 | in every run every index is in exactly one of free queue, network lease, ready queue, radio lease or lost, and whatever step is taken next its assertion holds |
| `TxPool.SlotKeeps` | crates/memory/src/pinned_tx.rs:150-175 | every step of a lease, failed publications included, leaves its slot in the state and with the bytes its place says |
| `TxPool.HolderByState` | crates/memory/src/pinned_tx.rs:150-175 | in every run a slot's state says who holds it, and a slot that is free or about to be written has length zero |
| `TxPublication.RadioReceivesFrame` | crates/memory/src/pinned_tx.rs:559-562 | at the claim, offset and length give back the published frame |
| `TxPublication.RadioReceivesLastWrite` | crates/memory/src/pinned_tx.rs:450-498 | in every run a radio lease sees what the last successful writer of its slot made of the bytes that lay there |
| `TxPublication.OverwrittenFrame` | crates/memory/src/pinned_tx.rs:450-498 | after a writer that overwrites all it is lent the frame is its own, whatever was written before |
| `TxPublication.FailuresHiddenIff` | crates/memory/src/pinned_tx.rs:467-498 | runs that differ only in failed publications show the radio the same frame exactly if its writer overwrites all it is lent |
| `TxPublication.FailedBytesLeak` | crates/memory/src/pinned_tx.rs:467-498 | a publication that writes nothing after a failed one shows the failed one's bytes |
| `TxPool.FramesInOrder` | crates/memory/src/pinned_tx.rs:378-400 | in every run the frames taken from the ready queue followed by those waiting in it are the frames put on it, in order |
| `TxPool.QueuesFit` | crates/memory/src/pinned_tx.rs:751-757 | in every run queues with one entry per slot have room for every index returned |
| `ExternalRx.AssertionsHold` | crates/memory/src/rx_external_handoff.rs:201-234 | a slot's holder finds the state and the buffer it expects |
| `ExternalRx.RunKeeps` | crates/memory/src/rx_external_handoff.rs:182-315 | in every run every buffer is in one hand, one slot or released, and every published view lies in initialized bytes |
| `ExternalRx.ViewIsLastRange` | crates/memory/src/rx_external_handoff.rs:201-234 | in every run, whoever holds a published slot, and the network after claiming it, sees exactly the offset and length last given for the slot, and they were given for the same buffer |
| `ExternalRx.HolderByState` | crates/memory/src/rx_external_handoff.rs:201-234 | a slot's state says who holds it |
| `ExternalRx.ReleasedOnce` | crates/memory/src/rx_external_handoff.rs:114-128 | no release callback runs twice, and it has run before its slot becomes free |
| `ExternalRx.RetainedBounded` | crates/memory/src/rx_external_handoff.rs:287-315 | the buffers taken and not yet released never outnumber the slots |
| `ExternalRx.ScanReaches` | crates/memory/src/rx_external_handoff.rs:358-372 | a scan of the slots comes by each exactly once |
| `ExternalRx.EachTryFoundTaken` | crates/memory/src/rx_external_handoff.rs:358-372 | in every interleaving each slot a claim has put behind it was tried by it and was taken at that moment |
| `ExternalRx.FailedClaimTriedEverySlot` | crates/memory/src/rx_external_handoff.rs:347-377 | in every interleaving a failed claim has its own buffer back, unclaimed and unreleased, after trying each slot exactly once and finding it taken |
| `ExternalRx.ClaimSlot` | crates/memory/src/rx_external_handoff.rs:347-377 | without interference a claim takes the first free slot from its start and fails only if there is none or the slot count is unusable |
| `Custody.IndexedCustody.constructor` | crates/memory/src/indexed_custody.rs:113-119 | a new store retains nothing and no name is out |
| `Custody.IndexedCustody.Insert` | crates/memory/src/indexed_custody.rs:122-135 | the value is retained under its name alone |
| `Custody.IndexedCustody.WithMut` | crates/memory/src/indexed_custody.rs:139-150 | only the named value changes, in place |
| `Custody.IndexedCustody.Take` | crates/memory/src/indexed_custody.rs:153-167 | the name gives back exactly its own value, once |
| `Custody.IndexedCustody.Finish` | crates/memory/src/indexed_custody.rs:171-193 | what remains is handed over in place order |
| `Custody.IndexedCustody.Quarantine` | crates/memory/src/indexed_custody.rs:235-252 | every remaining value is quarantined where it is, and none leaves |
| `Custody.Drained.Next` | crates/memory/src/indexed_custody.rs:207-224 | yields the remaining values in place order, each once |
| `Custody.Drained.Drop` | crates/memory/src/indexed_custody.rs:227-233 | drops exactly the values not yet taken |
| `Custody.RunBalanced` | crates/memory/src/indexed_custody.rs:122-193 | in every state of every run each owner inserted was taken, drained or quarantined, or is still retained, as often as it was inserted |
| `Custody.EveryOwnerLeavesOnce` | crates/memory/src/indexed_custody.rs:122-252 | once a run has ended in a finish or a destruction, each owner left as often as it came: by name, by the drain, or into quarantine |
| `Custody.TakenByItsOwnName` | crates/memory/src/indexed_custody.rs:153-167 | a name takes out the value it was given for, whatever other names did meanwhile |
| `Spectrum.ParseOfResource` | stand/claims/src/spectrum.rs:85-126 | every range comes back from its resource text |
| `Spectrum.ParsedFits` | stand/claims/src/spectrum.rs:103-126 | everything that parses fits 64 bits |
| `Spectrum.TextForm` | stand/claims/src/spectrum.rs:85-101 | the text of one range, written out |
| `Spectrum.ConflictsMeaning` | stand/claims/src/spectrum.rs:128-141 | ordered ranges conflict exactly if they share a frequency and one emits what the other cannot bear |
| `Claims.InRanges` | stand/claims/src/spectrum.rs:172-177 | the ranges of claims are those their resources parse to |
| `Claims.ConflictSymmetric` | stand/claims/src/lib.rs:92-115 | conflict does not depend on who asks |
| `Claims.ConflictMeaning` | stand/claims/src/lib.rs:92-115 | claims conflict exactly if one names the stand, ranges clash, or both name a resource, neither a range nor air ordered by ranges, that one of them wants exclusively |
| `Claims.SharedApart` | stand/claims/src/lib.rs:107-114 | claims that share resources in shared mode alone, with no stand claim and no clashing ranges, do not conflict |
| `Claims.CoversMeaning` | stand/claims/src/lib.rs:118-136 | covering is naming the stand or holding every wanted claim: a range in one at least as wide, quiet and noisy or under exclusive air, any other resource exclusively or, for shared use, shared |
| `Claims.CoversItself` | stand/claims/src/lib.rs:118-136 | every set of claims covers itself |
| `Claims.CoversByRanges` | stand/claims/src/spectrum.rs:143-148 | without the stand or exclusive air, covering holds every wanted range in a held one |
| `Claims.CoversProtectsIff` | stand/claims/src/lib.rs:118-136 | with range ends in any order, covering claims conflict with everything the covered ones conflict with exactly if both order their radio use in the same terms |
| `Claims.CoversProtectsInOrderIff` | stand/claims/src/lib.rs:118-136 | among ranges with their ends in order, exactly if each wanted range is held, need and emission, at every frequency, unless one side has no ranges and no air to order |
| `Claims.AirShortcutExposes` | stand/claims/src/lib.rs:123-128 | of three sets made from ranges, one covers another and does not conflict with the third, which the other does |
| `ClaimNormal.Normalize` | stand/claims/src/lib.rs:70-87 | one claim for each resource claimed, exclusive exactly if some claim was, in order; the whole stand for none or for a claim on it |
| `ClaimNormal.LessMeaning` | stand/claims/src/lib.rs:85 | the order of resources is lexicographic |
| `ClaimNormal.NormalFormUnique` | stand/claims/src/lib.rs:68-87 | claims that mean the same have one normal form |
| `ClaimNormal.NormalizedTwice` | stand/claims/src/lib.rs:70-87 | normalising again changes nothing |
| `ClaimNormal.NormalizedConflict` | stand/claims/src/lib.rs:70-115 | on claims that are not empty, normalising changes no conflict |
| `ClaimNormal.EmptyClaimsTheStand` | stand/claims/src/lib.rs:68-73 | no claims mean the whole stand |
| `ClaimNormal.SameCovers` | stand/claims/src/lib.rs:118-136 | covering depends only on what is claimed, not on order or duplicates |
| `LeaseQueue.BeforeIsTotal` | stand/arbiter/src/balance.rs:138-148 | service order is a strict total order on tickets with distinct ids |
| `LeaseQueue.InAhead` | stand/arbiter/src/queue.rs:19-37 | the tickets ahead are the conflicting ones served before |
| `LeaseQueue.AheadInService` | stand/arbiter/src/queue.rs:29-36 | the tickets ahead are listed in the order they are served |
| `LeaseQueue.GrantableMeaning` | stand/arbiter/src/queue.rs:40-49 | a ticket is grantable exactly if no holder and no ticket served before it conflicts |
| `LeaseQueue.GrantableApart` | stand/arbiter/src/queue.rs:40-49 | grantable tickets do not conflict |
| `LeaseQueue.GrantKeepsGrantable` | stand/arbiter/src/queue.rs:40-49 | granting one keeps the others grantable |
| `LeaseQueue.WaitsForSomeone` | stand/arbiter/src/queue.rs:19-49 | every waiting ticket leads through its blockers to one a holder blocks or one that is grantable |
| `LeaseQueue.FreeStandGrants` | stand/arbiter/src/queue.rs:40-49 | with nothing held, a waiting ticket is grantable |
| `LeaseQueue.MaintenanceFirst` | stand/arbiter/src/balance.rs:136-143 | no ordinary ticket is grantable while a conflicting maintenance one waits |
| `LeaseQueue.HigherBalanceFirst` | stand/arbiter/src/balance.rs:146-147 | of two conflicting ordinary tickets the one whose owner has the lower balance cannot be granted |
| `LeaseQueue.EarlierFirst` | stand/arbiter/src/balance.rs:143-147 | on equal balances, and between maintenance tickets, the later of two conflicting ones cannot be granted |
| `LeaseQueue.GrantedOtherwise` | stand/arbiter/src/queue.rs:40-49 | a ticket that no holder conflicts with, and no ticket of a higher priority, higher balance or equal balance and earlier arrival, can be granted |
| `LeaseQueue.AheadCount` | stand/arbiter/src/queue.rs:19-37 | as many tickets are ahead as queued tickets conflict and are served before |
| `ExpectedStarts.ExpectedStarts` | stand/arbiter/src/queue.rs:101-155 | the starts are the pointwise least schedule that respects holders' predicted ends and service order |
| `ExpectedStarts.FillStarts` | stand/arbiter/src/queue.rs:129-144 | every start a ticket needs is known when it is looked up |
| `ExpectedStarts.RemainingBounds` | stand/arbiter/src/queue.rs:102-124 | the latest predicted end of the conflicting holders, preemption grace included |
| `ExpectedStarts.PredictedEndMeaning` | stand/arbiter/src/queue.rs:107-119 | a holder ends by its estimate, or within the grace if that is sooner and a maintenance ticket that conflicts with it waits |
| `ExpectedStarts.NoOverlap` | stand/arbiter/src/queue.rs:94-100 | no two conflicting tickets overlap, and the one served first goes first |
| `ExpectedStarts.EndsBounded` | stand/arbiter/src/queue.rs:101-155 | no sum of a start and an estimate exceeds the latest holder's predicted end plus all waiting estimates |
| `Settlement.RawMeaning` | stand/arbiter/src/balance.rs:71-103 | each owner waiting on another is credited once and charged once for each unpreempted lease |
| `Settlement.CreditBehindLease` | stand/arbiter/src/balance.rs:49-91 | an owner with a queued ticket that conflicts with another owner's lease is credited exactly the time elapsed, beside the charge for its own leases |
| `Settlement.CreditBehindRequest` | stand/arbiter/src/balance.rs:49-91 | so is one whose ticket conflicts with an earlier ticket of another owner that cannot be granted itself |
| `Settlement.NoCreditOtherwise` | stand/arbiter/src/balance.rs:49-91 | an owner whose tickets conflict with its own leases and tickets alone, or with earlier tickets that can be granted, is credited nothing |
| `Settlement.LeasesCount` | stand/arbiter/src/balance.rs:92-102 | the leases charged are the owner's that were not preempted |
| `Settlement.QuotientTowardZero` | stand/arbiter/src/balance.rs:120-125 | the mean is cut toward zero |
| `Settlement.CenteredSum` | stand/arbiter/src/balance.rs:112-129 | before clamping, the balances of n owners sum to strictly between -n and n |
| `Settlement.CenteredDifference` | stand/arbiter/src/balance.rs:126-128 | subtracting the mean changes no difference |
| `Settlement.SettleMeaning` | stand/arbiter/src/balance.rs:71-108 | exactly the owners active in the last day are kept, within the cap |
| `Settlement.SettledAt` | stand/arbiter/src/balance.rs:103-129 | exactly the owners active in the last 86,400,000 ms are kept, each with its balance less the mean of theirs, cut to 3,600,000 ms either way; nothing else of the state changes |
| `Settlement.NothingToSettle` | stand/arbiter/src/balance.rs:72-76 | the first settlement, and one at the same or an earlier time, leave every balance and move the time forward alone |
| `Settlement.SettleKeepsOrder` | stand/arbiter/src/balance.rs:103-107 | centring and clamping do not reorder owners |
| `Settlement.SettleAgain` | stand/arbiter/src/balance.rs:71-76 | settling again at the same time or earlier changes nothing |
| `Settlement.RawBound` | stand/arbiter/src/balance.rs:78-103 | with a decay that does not grow magnitudes, intermediate balances stay within the cap plus the time elapsed for each lease and one credit |
| `Settlement.SumBound` | stand/arbiter/src/balance.rs:120-125 | the sum for the mean is bounded by the bound on each balance |
| `Settlement.SettleBalances` | stand/arbiter/src/balance.rs:71-108 | the loops compute decay, credit, charge, centring and clamp |
| `Settlement.Normalize` | stand/arbiter/src/balance.rs:112-129 | the loops forget idle owners and subtract the truncated mean |
| `Arbiter.TransactionSafe` | stand/arbiter/src/store.rs:123-155 | settle, reap and any action keep ids unique and holders apart |
| `Arbiter.RunSafe` | stand/arbiter/src/grant.rs:204-221 | over every run ids are unique across queue and holders and no two holders conflict |
| `Arbiter.NextIdBounded` | stand/arbiter/src/grant.rs:205-206 | the next id is at most one more than the number of transactions |
| `Arbiter.RunWithinCap` | stand/arbiter/src/balance.rs:104-107 | over every run every balance stays within the cap |
| `Arbiter.LeaseStays` | stand/arbiter/src/grant.rs:838-846 | a lease ends only by its own release or its process's death |
| `Arbiter.RequestStays` | stand/arbiter/src/grant.rs:597-606 | a request waits until it is granted, cancelled or its process dies |
| `Arbiter.BegunMeaning` | stand/arbiter/src/store.rs:140-155 | a transaction begins with exactly the tickets and leases of living processes, under settled balances |
| `Arbiter.EnqueueAchieves` | stand/arbiter/src/grant.rs:204-221 | exactly one ticket joins, with the next id and the owner, estimate, process, claims and priority given |
| `Arbiter.PollAchieves` | stand/arbiter/src/grant.rs:394-430 | a living request leaves the queue for the holders, with its token and the time, exactly if it can be granted; every other one stays |
| `Arbiter.PollFails` | stand/arbiter/src/grant.rs:394-436 | a poll of a request that no living process has waiting stores nothing |
| `Arbiter.CancelAchieves` | stand/arbiter/src/grant.rs:597-606 | after a cancellation the queue is the living tickets of other ids, and the leases are unchanged |
| `Arbiter.ReleaseAchieves` | stand/arbiter/src/grant.rs:838-846 | after a release the holders are the living ones of other ids, and the queue is unchanged |
| `Arbiter.PreemptAchieves` | stand/arbiter/src/preempt.rs:51-82 | a preemption marks its lease with the time of the first one and changes no other |
| `Arbiter.PreemptFails` | stand/arbiter/src/preempt.rs:58-70 | a preemption of a lease that no living process holds stores nothing |
| `Arbiter.OnlyLivingLeft` | stand/arbiter/src/store.rs:149-155 | after any transaction that succeeds every holder, and every ticket it began with, belongs to a living process |
| `Arbiter.RunByArrival` | stand/arbiter/src/grant.rs:204-221 | in every state of every run the queue is in the order of its ids |
| `StandArbiter.Store.Begin` | stand/arbiter/src/store.rs:140-155 | every transaction settles, then drops what dead processes left |
| `StandArbiter.Store.Enqueue` | stand/arbiter/src/grant.rs:204-221 | appends a ticket with the next id |
| `StandArbiter.Store.Poll` | stand/arbiter/src/grant.rs:394-436 | grants exactly if grantable, else reports the tickets ahead and the start of the least schedule; fails, changing nothing, if the request left |
| `StandArbiter.Store.Cancel` | stand/arbiter/src/grant.rs:597-606 | removes the ticket |
| `StandArbiter.Store.Release` | stand/arbiter/src/grant.rs:838-846 | removes the holder if it is still there |
| `StandArbiter.Store.Preempt` | stand/arbiter/src/preempt.rs:51-82 | marks a held lease, keeping the first mark; fails, changing nothing, if it is not held |
| `StandArbiter.HoldersNeverConflict` | stand/arbiter/src/grant.rs:394-430 | over every run of the stand two holders' claims can be held at once |
| `StandArbiter.NothingHeldTwice` | stand/arbiter/src/grant.rs:394-430 | over every run, a board or other resource, neither a range nor the air, that one holder claims exclusively is claimed by no other |
| `StandArbiter.NestedWorkIsSafe` | stand/arbiter/src/grant.rs:347-391 | work that joins a lease covering it in the same radio terms conflicts with no other holder |
| `Utf8.PrefixValidIff` | hil/agent/src/postmortem.rs:374-378 | a prefix of a text is a text exactly if it ends at a character boundary |
| `Utf8.TwoBytes` | hil/agent/src/postmortem.rs:387-390 | the well-formed characters of two bytes are those of value 0x80 and up |
| `Utf8.ThreeBytes` | hil/agent/src/postmortem.rs:387-390 | those of three bytes are those of value 0x800 and up other than surrogates |
| `Utf8.FourBytes` | hil/agent/src/postmortem.rs:387-390 | those of four bytes are those of value 0x10000 to 0x10FFFF |
| `Utf8.CutIsLongest` | hil/agent/src/postmortem.rs:374-378 | the cut text is the longest well-formed prefix that fits |
| `Utf8.Bytes` | hil/agent/src/postmortem.rs:374-384 | the loops cut at the last boundary and pad with zeros |
| `Utf8.TextOfPadded` | hil/agent/src/postmortem.rs:387-390 | a text comes back cut, up to its first zero |
| `Utf8.ShortTextWhole` | hil/agent/src/postmortem.rs:374-390 | a text without zeros that fits comes back whole |
| `PostMortem.CheckpointRoundTrip` | hil/agent/src/postmortem.rs:60-80 | a checkpoint decodes to what was passed, its name cut |
| `PostMortem.HangRoundTrip` | hil/agent/src/postmortem.rs:148-175 | a recorded hang decodes to itself |
| `PostMortem.PanicRoundTrip` | hil/agent/src/postmortem.rs:176-182 | a recorded panic decodes to itself, its texts cut |
| `PostMortem.CheckpointDecodesIff` | hil/agent/src/postmortem.rs:69-80 | a checkpoint is reported exactly if its CRC agrees, its hart is a byte and its name up to the first zero is UTF-8 |
| `PostMortem.FaultDecodesIff` | hil/agent/src/postmortem.rs:148-185 | a fault is reported exactly if its CRC agrees and it is a hang of a byte of executors and a known task slot, or a panic whose texts are UTF-8 |
| `PostMortem.DigestFault` | hil/agent/src/postmortem.rs:115-140 | the digest loops compute the checksum of the fault's words and bytes |
| `PostMortem.DamagedFaultDropped` | hil/agent/src/postmortem.rs:148-151 | a sealed fault damaged in any one word, its CRC included, is dropped |
| `PostMortem.DamagedCheckpointDropped` | hil/agent/src/postmortem.rs:69-72 | so is a damaged checkpoint |
| `PostMortem.FaultLayout` | hil/agent/src/postmortem.rs:128-138 | the CRC of a fault covers 280 bytes, each field at its place |
| `PostMortem.FaultWordDamaged` | hil/agent/src/postmortem.rs:115-151 | a sealed fault with another value in any of its words or in its CRC is dropped |
| `PostMortem.FaultHartDamaged` | hil/agent/src/postmortem.rs:131-133 | so is one with another value in any word of either hart |
| `PostMortem.FaultSampleDamaged` | hil/agent/src/postmortem.rs:131-133 | so is one with another value in any sample |
| `PostMortem.FaultFileDamaged` | hil/agent/src/postmortem.rs:137 | so is one with up to four consecutive bytes of its file changed |
| `PostMortem.FaultMessageDamaged` | hil/agent/src/postmortem.rs:138 | so is one with up to four consecutive bytes of its message changed |
| `PostMortem.CheckpointWordDamaged` | hil/agent/src/postmortem.rs:60-72 | a sealed checkpoint with another argument, time, hart or CRC is dropped |
| `PostMortem.CheckpointNameDamaged` | hil/agent/src/postmortem.rs:60-72 | so is one with up to four consecutive bytes of its name changed |
| `CheckpointRing.Written` | hil/agent/src/postmortem.rs:313-316 | a checkpoint keeps the ring holding the last ones in their slots |
| `CheckpointRing.ReadsLast` | hil/agent/src/postmortem.rs:277-287 | read from its oldest entry, the ring gives the last checkpoints in order |
| `CheckpointRing.ReadsSurvivors` | hil/agent/src/postmortem.rs:281-285 | entries that no longer decode are skipped and the others read in order |
| `BootRecord.DamageDropsOnlyItself` | hil/agent/src/postmortem.rs:275-288 | damage to some checkpoints or the fault loses those parts and nothing else of what the boot left |
| `BootRecord.DamagedHeaderDropped` | hil/agent/src/postmortem.rs:247-267 | nothing is told under a sealed header with another value in any one field, and the boots are counted from one |
| `BootRecord.DamagedHeaderCrcDropped` | hil/agent/src/postmortem.rs:261-267 | nor under one whose CRC changed |
| `BootRecord.ForeignRecordDropped` | hil/agent/src/postmortem.rs:261-292 | something is told exactly if magic, layout and CRC agree and position and count fit the ring; the next boot then counts one more, else one |
| `BootRecord.BootLeaves` | hil/agent/src/postmortem.rs:275-301 | whatever memory held, a boot leaves its last checkpoints, oldest first, and its last fault |
| `BootRecord.EachBootToldOnce` | hil/agent/src/postmortem.rs:275-301 | over any boots each is told exactly of the one before it, once, with a wrapping count |
| `BootRecord.Record.BeginBoot` | hil/agent/src/postmortem.rs:275-301 | returns what is left and starts a fresh record |
| `BootRecord.Record.Checkpoint` | hil/agent/src/postmortem.rs:304-318 | appends a sealed checkpoint, replacing the oldest when full |
| `BootRecord.Record.RecordHang` | hil/agent/src/postmortem.rs:321-345 | replaces the fault with the hang |
| `BootRecord.Record.RecordPanic` | hil/agent/src/postmortem.rs:351-368 | fills the fault in place with the panic, whatever it held |

## Left out

- TraceStore.ReadsBackInOrder: at most 2^32 records in a run; TraceWrap.RingRightIff and TraceRecorder.Trace.Drain say what holds beyond.
- TornRead.ReadsAreWhole: the interleaved writer stops at the first wrap of the sequence.
- ExpectedStarts.ExpectedStarts: sums of seconds are unbounded; EndsBounded says when 64 bits hold every start plus estimate; a holder's grant time plus its estimate, and overflow beyond the bound, are not limited.
- Arbiter.RunSafe: the next id is unbounded; NextIdBounded says for how many transactions 64 bits hold it, and the wrap beyond that is not modelled.
- Settlement.SettleBalances: the decay is any function, because the source computes it in floating point; 64-bit overflow is bounded by RawBound and SumBound instead of modelled.
- Crc32c.UpdateLoop: the table-driven implementation of the same checksum, used for headers and checkpoints, is taken to compute it.
- Cobs.RoundTrip: the stuffing codec is an external crate, modelled from the algorithm of Cheshire and Baker; its decoding in place is modelled as a function of the buffer.
- Weak memory orderings, pinning, cache maintenance and raw pointers: atomics are sequentially consistent steps and leases are places in the state.
- The overrun guard bytes around transmit buffers: they observe hardware, not the protocol.
- `crates/memory/src/rx_handoff.rs`: its slots repeat the transitions of the two pools modelled here.
- Snapshots, capture and previous-boot headers of the trace are not modelled.
- BootRecord.Record.Checkpoint: the 32-bit count of a record that was never begun wraps; a build with overflow checks would stop there instead.
- Message payloads: a payload is up to 560 bytes; postcard and schema keys are not modelled.
- File locks, process liveness, signals, notifications, board locks and history records of the arbiter: which processes live and what time it is are inputs of a transaction.
- Balance-driven yielding, hard limits, supervision, status and waiting-time texts of the arbiter.
- Lease history: `charged_ms` and outcomes are not modelled.
- `stand/cli`, `stand/board`, `stand/discover`, `stand/doctor`, `stand/file`, `hil/observer`: input, output and validation.
