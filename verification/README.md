# Verified models of iroh-room

This project models the parts of iroh-room whose correctness is hard to see from the code, and proves
what they promise for every input, every run and every interleaving.

* **The transport queue** (`Queue`, `QueueLaws`, `BytePriorityQueue`, `QueueWakeup`): a byte-bounded priority queue
  with two per-peer ledgers. The deques and ledgers, updated in place, refine one arrival-ordered log; which pushes
  are accepted, and that the delivery reserves are there when needed, follows for every run; the asynchronous
  `recv` loses no wakeup in any interleaving with producers and `close`.
* **The wire path** (`Framing`, `PeerTasks`, `WirePath`, `WireLaws`, `Subsequences`): length-prefixed frames over a
  stream that can be cut anywhere, the writer and reader loops, the order of frames from one queue to the other, and
  exactly when one is lost.
* **Membership** (`Membership`, `RoomMembership`, `MembershipLaws`, `FoldLaws`, `GateLaws`): the causal fold of a
  room's events. What it settles to depends on the set of events alone, not on their arrival order; what it says of a
  member follows from the causally last events about it, and the verdict on an event, with its reason, from the
  events before it.
* **Admission and links** (`Admission`, `SharedDevice`, `Seeds`, `PeerManager`, `ManagerRuns`, `ManagerLaws`,
  `ManagerBounds`, `ManagerRaces`): who may connect, whom a node dials, when and how a revoked peer is torn down,
  what becomes of every pull routed on demand, and when the seed overlay stays connected.
* **The gossip overlay** (`GossipMesh`, `MeshEpochs`): the broadcast window and the epoch guard on late joins.
* **The invite ticket** (`Utf8`, `CborHeads`, `KeyOrder`, `Cbor`, `CborReader`, `CborFaults`, `CborParser`, `Base32`,
  `Ticket`, `TicketLayout`, `TicketToken`): deterministic CBOR (section 4.2.1 of RFC 8949) with the error for each
  departure from it, unpadded base32 (section 6 of RFC 4648), the checksum frame, and the exact set of texts that parse.
* **Timestamps** (`Calendar`, `Timestamp`): the day-to-date conversion against an independent calendar,
  what a rendered timestamp says, and how rendered timestamps sort.

Code that updates state in place is a class with methods proved against functions on values; the theorems about
runs are stated on those functions. Hashes (BLAKE3, capability hashes, body digests), the validity of public keys,
message classification and the admission gate seen by the link manager are parameters, so every theorem holds for
any of them. Keys and identifiers are the numbers their bytes spell, which keeps the bytewise order of the
source's sorted maps. `MAX_ACTIVE_MEMBERS` differs between builds and is a parameter of the room.

Where the code and its comments differ, the model follows the code:

* The comment on `desired_seeds` says every node computes the same seed set. Each node leaves itself out, so two
  nodes agree exactly when neither is a hub (`Seeds.SameSeedsExactly`, with `Seeds.TwoMembersDiffer` as an
  instance); `Seeds.SurvivesExactly` says what connectivity follows anyway.
* The comment on `MAX_ON_DEMAND_LINKS` gives the per-node link total as K + 8. The admin's device can be a
  further seed: `Seeds.SeedBoundIsMetExactly` says when, `ManagerRuns.RunsAreBounded` bounds warm links by K + 1,
  and `ManagerBounds.BoundsAreMet` is a run with K + 9 links.
* Rendered timestamps do not sort chronologically over the whole input range: year 10000 sorts before year 9999.
  `Timestamp.RenderedOrderExactly` gives the exact condition.
* A ticket text with unknown map keys parses, and printing the result drops them.
  `TicketTokens.PrintAfterParseExactly` gives the exact condition, and `TicketTokens.UnknownKeyIsLost` such texts.
* One `authorize` call reads the roster and the join window one after the other, and one delivery makes two such
  calls. `Admission.DecidesAtOneInstantExactly`, `Admission.DeliveryAtOneInstantExactly` and
  `Admission.AcceptedInOneViewExactly` say when the outcome is that of a single instant or view.
* `route_on_demand` takes two locks and a reconcile three. `ManagerRaces` says what survives when they interleave.

## Model

| member | source | states |
|---|---|---|
| `Queue.RunsConserveFrames` | crates/iroh-rooms-net/src/queue.rs:259-404 | Over every run of pushes, pops and closes, the accepted frames are the delivered ones plus the queued ones, as a multiset and class by class in order; every peer on either ledger stays within its cap, its cap plus 512 for receipts, its cap plus the terminal reserve, and its stream cap; no queued body is empty |
| `Queue.Best` | crates/iroh-rooms-net/src/queue.rs:77-82 | The position chosen has the highest class present and nothing of that class before it |
| `Queue.NothingLeftExactly` | crates/iroh-rooms-net/src/queue.rs:254-281 | A pop finds nothing exactly when everything accepted was delivered, and exactly when the byte depth is zero |
| `Queue.OtherAccountsCannotInterfere` | crates/iroh-rooms-net/src/queue.rs:221-235 | However other peers and the other ledger push and pop, the verdict on a push and every byte sum of its account stay what they were |
| `Queue.GossipCannotSaturateEvents` | crates/iroh-rooms-net/src/queue.rs:333-390 | No sequence of gossip pushes or of other peers' pushes changes the verdict of an event-plane push |
| `Queue.RemoveFirstOfClass` | crates/iroh-rooms-net/src/queue.rs:259-281 | Taking the earliest frame of a class removes the head of that class and leaves every other class alone |
| `QueueLaws.PushesExactly` | crates/iroh-rooms-net/src/queue.rs:342-404 | After any run: an empty body is refused first, then everything once the queue was closed, and of the rest exactly what overruns the peer cap plus the reserve of its family (one frame and 512 bytes for a terminal removal, 512 for a receipt, none otherwise) or, for the four stream families, the stream cap |
| `QueueLaws.ReservesAreAvailable` | crates/iroh-rooms-net/src/queue.rs:48-57 | However full an open queue is for a peer, a terminal removal of one frame is accepted unless one is queued, its envelope too unless a receipt is queued, and a 512-byte receipt unless a receipt or terminal removal is queued |
| `QueueLaws.RunsStayWithinCaps` | crates/iroh-rooms-net/src/queue.rs:342-404 | Over every run the bytes of the stream families stay within the stream cap, those of unreserved families within the peer cap, and with receipts and terminal removals within the cap plus their reserves |
| `QueueLaws.StreamCapSparesControl` | crates/iroh-rooms-net/src/queue.rs:129-140 | The verdict on governance, checkpoint, session, receipt and terminal frames never depends on the stream cap |
| `QueueLaws.ServesByUrgency` | crates/iroh-rooms-net/src/queue.rs:62-127 | A pop serves governance first, then checkpoints, session control and receipts, then publications, subscriptions and terminal removals, hints and reconciliation last, and within such a group the earliest arrival |
| `BytePriorityQueues.SaturationIsExact` | crates/iroh-rooms-net/src/queue.rs:360-380 | Saturating arithmetic decides the byte limit correctly for all operands exactly when the limit is below the largest usize |
| `BytePriorityQueues.LimitsDecide` | crates/iroh-rooms-net/src/queue.rs:368-390 | The saturating comparisons of a push decide the byte limits on the exact sums |
| `BytePriorityQueues.BytePriorityQueue.TryPushLedger` | crates/iroh-rooms-net/src/queue.rs:342-404 | The verdict and the new state are those of the log (`QueueLaws.PushesExactly` says which frames that accepts), with both ledgers kept exact; a refused push changes no sum |
| `BytePriorityQueues.BytePriorityQueue.EntryOrDefault` | crates/iroh-rooms-net/src/queue.rs:363-367 | Looking up a budget leaves the byte sums unchanged and returns them |
| `BytePriorityQueues.BytePriorityQueue.Enqueue` | crates/iroh-rooms-net/src/queue.rs:388-398 | Charging the ledger and appending to one deque appends to the log |
| `BytePriorityQueues.BytePriorityQueue.PopHighest` | crates/iroh-rooms-net/src/queue.rs:259-281 | The loop over the four deques delivers the earliest frame of the highest class of the log and refunds its ledger |
| `BytePriorityQueues.BytePriorityQueue.Refund` | crates/iroh-rooms-net/src/queue.rs:262-276 | The refund restores exact ledgers for the shortened log |
| `BytePriorityQueues.BytePriorityQueue.Close` | crates/iroh-rooms-net/src/queue.rs:420-431 | Closing keeps the queued frames and the ledgers |
| `BytePriorityQueues.BytePriorityQueue.TotalDepth` | crates/iroh-rooms-net/src/queue.rs:254-257 | The wrapping sum of both ledgers is the queued bytes modulo 2^64, so exact for bytes that fit in the address space, and then zero exactly when nothing is queued |
| `BytePriorityQueues.SumLedger` | crates/iroh-rooms-net/src/queue.rs:254-257 | Adding up one ledger gives the queued bytes of its peers modulo 2^64 |
| `BytePriorityQueues.RefundIsExact` | crates/iroh-rooms-net/src/queue.rs:264-276 | The saturating subtraction of a refund never saturates |
| `BytePriorityQueues.LedgerAfterPop` | crates/iroh-rooms-net/src/queue.rs:264-276 | After a pop the refunded ledger holds the exact byte sums of every peer |
| `BytePriorityQueues.HeadIsBest` | crates/iroh-rooms-net/src/queue.rs:77-82 | The head of the first non-empty deque in drain order is the frame the log would deliver |
| `QueueWakeup.NoLostWakeup` | crates/iroh-rooms-net/src/queue.rs:399-489 | In every interleaving of lock scopes and notifications, a consumer parked without a wakeup while no notification is owed waits on an open and empty queue |
| `QueueWakeup.NoneMeansDrained` | crates/iroh-rooms-net/src/queue.rs:450-489 | If `recv` returned nothing, the queue is closed and everything accepted was delivered, class by class in order |
| `QueueWakeup.RecvReturnsInEveryInterleaving` | crates/iroh-rooms-net/src/queue.rs:399-489 | However pushes, closes and notifications run in between, a `recv` on a non-empty or closed queue has returned exactly when it has taken its remaining steps, at most four; if a frame was queued it delivers the one that was next or a more urgent one pushed meanwhile, otherwise nothing; until then it can step or a wakeup is owed |
| `QueueWakeup.ApplyKeepsSafe` | crates/iroh-rooms-net/src/queue.rs:399-489 | Every atomic step keeps the wakeup invariant and the queue invariant |
| `Framing.ReadCutStream` | crates/iroh-rooms-net/src/frame.rs:69-121 | Reading any prefix of a written stream yields the whole frames of the prefix, then a clean end exactly on a frame boundary and a truncation otherwise |
| `Framing.CleanStreamsAreEncodings` | crates/iroh-rooms-net/src/frame.rs:97-121 | A byte string reads to a clean end exactly when it is the concatenation of the frames read from it |
| `Framing.WireIsInjective` | crates/iroh-rooms-net/src/frame.rs:69-121 | Two lists of bodies with the same bytes on the wire are equal |
| `Framing.OversizedIsRefused` | crates/iroh-rooms-net/src/frame.rs:97-121 | A prefix that declares more than a frame may hold is refused at once, with the declared length |
| `Framing.LossIsNotAnEnd` | crates/iroh-rooms-net/src/frame.rs:97-121 | A lost stream never reads as finished or truncated, a clean end is reported only for a finished one, and frames and oversize are the same for both |
| `BigEndian.MostSignificantFirst` | crates/iroh-rooms-net/src/frame.rs:69-121 | The first byte of an encoded number is its most significant one: equally long encodings order as their numbers do |
| `Framing.WriteFrame` | crates/iroh-rooms-net/src/frame.rs:69-92 | A body that fits goes out whole or cut inside; an oversized one is refused and no byte is written |
| `Framing.ReadFrameFrom` | crates/iroh-rooms-net/src/frame.rs:97-121 | The buffered reads compute the frame reader, with its clean end, truncation, oversize and lost-link outcomes |
| `PeerTasks.WriterTask` | crates/iroh-rooms-net/src/peer.rs:82-105 | Whatever others push and close before each of its looks at the queue, the loop writes exactly the frames of what its looks find, best first, skipping oversized bodies; it waits on an open empty queue, ends on a closed one, or stops inside a frame |
| `PeerTasks.WriterTurn` | crates/iroh-rooms-net/src/peer.rs:83-104 | One turn handles one frame or oversized body, waits on an empty open queue, ends on a drained closed one, or stops inside a frame |
| `PeerTasks.WriterTakesEverything` | crates/iroh-rooms-net/src/peer.rs:82-105 | The writer leaves nothing behind: class by class and in order it takes what was queued and what others got into the queue before each of its looks |
| `PeerTasks.OnlyOversizedAreSkipped` | crates/iroh-rooms-net/src/peer.rs:82-105 | Of what it takes it skips the oversized bodies and nothing else |
| `PeerTasks.ReaderTask` | crates/iroh-rooms-net/src/peer.rs:107-133 | The loop leaves the inbound queue as pushing the stream's frames one by one until a push saturates would |
| `PeerTasks.ReaderEnqueues` | crates/iroh-rooms-net/src/peer.rs:107-133 | Up to the first body refused though not empty, every body that is not empty is enqueued, verbatim and in order; an empty body never ends the reader |
| `PeerTasks.ReceivedIsPushAll` | crates/iroh-rooms-net/src/peer.rs:107-133 | Reading frame by frame while pushing equals reading all frames and then pushing them |
| `PeerTasks.WriterFeedsReader` | crates/iroh-rooms-net/src/peer.rs:82-133 | A reader given any prefix of the writer's bytes has pushed exactly the whole frames of that prefix |
| `WirePath.EndToEndClassOrder` | crates/iroh-rooms-net/src/peer.rs:82-133 | In every run of two queues, writer, wire and reader, the frames of one class leave the receiver at strictly increasing positions of how they entered the sender, through oversized drops, saturation and cuts |
| `WirePath.LosslessConservation` | crates/iroh-rooms-net/src/peer.rs:82-133 | Without a loss, what one class sent is what was delivered, queued at the receiver, on the wire and queued at the sender, in that order |
| `WirePath.ReadNowExactly` | crates/iroh-rooms-net/src/peer.rs:107-133 | Whatever part of the stream has arrived, the reader obtains the next frame written if and only if it has arrived whole |
| `WireLaws.LosesExactly` | crates/iroh-rooms-net/src/peer.rs:82-133 | A turn loses a frame exactly when an oversized body is popped, the link fails before the whole frame is out, or the inbound queue refuses the frame read |
| `WireLaws.LossyExactly` | crates/iroh-rooms-net/src/peer.rs:82-133 | Over every run a frame has been lost exactly when some turn lost one in these ways |
| `WireLaws.WriterMovesOn` | crates/iroh-rooms-net/src/peer.rs:82-105 | A turn of the writer sends the next frame whole unless that loses it: an oversized body is skipped and the writer goes on, a failed link ends it inside the frame |
| `WireLaws.ReaderMovesOn` | crates/iroh-rooms-net/src/peer.rs:107-133 | A turn of the reader takes in the next frame once it has arrived whole and ends otherwise; a refused frame ends it too, an empty one does not |
| `WirePath.RunsAreGood` | crates/iroh-rooms-net/src/peer.rs:82-133 | Every event of a run keeps what has been read a prefix of what was written, in class order on both sides |
| `Subsequences.SubPicks` | crates/iroh-rooms-net/src/peer.rs:82-133 | A subsequence is given by strictly increasing positions, so it preserves order and duplicates nothing |
| `RoomMemberships.SettledIsUnique` | crates/iroh-rooms-core/src/membership/fold.rs:154-199 | A set of events settles to one state: verdicts, ancestor sets and snapshot |
| `RoomMemberships.ArrivalOrderIsIrrelevant` | crates/iroh-rooms-core/src/membership/fold.rs:154-167 | Two engines given the same events in any two orders, with repetitions, hold the same verdicts and the same snapshot |
| `RoomMemberships.RoomMembership.Ingest` | crates/iroh-rooms-core/src/membership/fold.rs:172-199 | The new state is the settled state of the old events plus the new one; settled verdicts stand; a known event changes nothing (`GateLaws` says what the verdicts are); an unchanged generation below the maximum means an unchanged snapshot |
| `RoomMemberships.RoomMembership.Cascade` | crates/iroh-rooms-core/src/membership/fold.rs:190-198 | The work list leaves no event pending whose parents are all classified, and terminates |
| `RoomMemberships.RoomMembership.TryClassify` | crates/iroh-rooms-core/src/membership/fold.rs:265-319 | An event moves exactly when it is pending and all its parents are classified; it gets its gate verdict, which `GateLaws` reads off the causal graph, and its inherited ancestors, and the generation advances exactly for an accepted membership event, up to saturation |
| `RoomMemberships.RoomMembership.GatherAncestors` | crates/iroh-rooms-core/src/membership/fold.rs:284-292 | The loop collects the membership parents and everything the parents inherited |
| `RoomMemberships.RoomMembership.Link` | crates/iroh-rooms-core/src/membership/fold.rs:177-179 | The reverse edges stay exactly those of the tracked events |
| `RoomMemberships.RoomMembership.IngestAll` | crates/iroh-rooms-core/src/membership/fold.rs:160-166 | Folding a list leaves the settled state of the merged events |
| `RoomMemberships.WaitingAfter` | crates/iroh-rooms-core/src/membership/fold.rs:191-197 | After one classification only that event's children can have become ready |
| `RoomMemberships.ClassifyKeepsConsistent` | crates/iroh-rooms-core/src/membership/fold.rs:265-319 | Classifying a ready event keeps every earlier verdict justified by the events before it |
| `RoomMemberships.FoldIsRelevant` | crates/iroh-rooms-core/src/membership/fold.rs:139-154 | The snapshot depends on the accepted membership events alone, which is what the generation counter rests on |
| `MembershipLaws.AncestorsAreTheCausalPast` | crates/iroh-rooms-core/src/membership/fold.rs:281-295 | The memoized ancestors of a classified event are exactly the membership events reachable along parent edges |
| `MembershipLaws.StatusFollowsTheLastEvents` | crates/iroh-rooms-core/src/membership/fold.rs:749-858 | In the fold of the room and of any part of it, such as an event's causal past: a subject is removed exactly when some causally last event about it (invite, own join, leaving, removal) is a departure, active exactly when one is its join and none a departure; there is always a last one |
| `FoldLaws.RoleFollowsTheLastEvents` | crates/iroh-rooms-core/src/membership/fold.rs:861-882 | A member's role is the least privileged that any causally last event about it grants; where none grants one, that any event about it grants; and an ordinary member's where none does |
| `FoldLaws.DeviceFollowsTheLastEvents` | crates/iroh-rooms-core/src/membership/fold.rs:922-938 | A member is bound to the device of the lowest-id join among the causally last events about it, else of its lowest-id join, else to none |
| `FoldLaws.AdminIsTheFirstGenesis` | crates/iroh-rooms-core/src/membership/fold.rs:641-668 | The admin is the sender of the accepted genesis with the lowest id, active, with the admin role and the genesis device; without a genesis there is none |
| `FoldLaws.RosterIs` | crates/iroh-rooms-core/src/membership/fold.rs:670-722 | The roster lists exactly the admin and those an accepted event is about |
| `FoldLaws.MemberIs` | crates/iroh-rooms-core/src/membership/fold.rs:895-917 | A member other than the admin is what its events make of it, except that an active one is shown as invited when the room is full without it |
| `GateLaws.AdminActsExactly` | crates/iroh-rooms-core/src/membership/fold.rs:388-449 | In every settled room an invite, removal or key distribution is accepted exactly when its sender is the admin of its own causal past, on the genesis device unless it is a removal; another sender is refused for its role, another device as unbound |
| `GateLaws.WritesExactly` | crates/iroh-rooms-core/src/membership/fold.rs:400-460 | An ordinary write is accepted exactly when its sender is active in the snapshot of its causal past and writes from the device bound there; refused as no member exactly when not active, as unbound exactly on another device |
| `GateLaws.WritersStand` | crates/iroh-rooms-core/src/membership/fold.rs:400-460 | So a writer is the admin on the genesis device, or joined from that very device by a causally last event that no departure stands beside |
| `GateLaws.LeavesExactly` | crates/iroh-rooms-core/src/membership/fold.rs:391-460 | Leaving is refused exactly when the sender is bound to another device in its causal past, and then as unbound |
| `GateLaws.GenesisIsAccepted` | crates/iroh-rooms-core/src/membership/fold.rs:384-386 | A genesis is accepted wherever it stands |
| `GateLaws.JoinsExactly` | crates/iroh-rooms-core/src/membership/fold.rs:465-567 | The verdict on a join: accepted exactly when an admin invite in its past names and proves it, every such invite is in date and of its role, no departure of the joiner follows the lowest, and there is a place; bad capability exactly without an invite, the fault of the lowest unusable one, expired for a used-up one, full otherwise |
| `GateLaws.GateSeesThePast` | crates/iroh-rooms-core/src/membership/fold.rs:365-418 | The verdict is taken on a view that folds to the snapshot of the whole causal past |
| `GateLaws.ActiveMeansInvited` | crates/iroh-rooms-core/src/membership/fold.rs:465-563 | In every settled room an active member other than the admin holds a causally last join admitted by a named, key-bound, unexpired, role-equal admin invite in its past that no earlier departure used up; each of its departures is followed by a later event |
| `MembershipLaws.CapIsExact` | crates/iroh-rooms-core/src/membership/fold.rs:895-917 | The number of active members is exactly the smaller of candidates and cap, whoever has a join with a lower event id than all of a kept member's is kept too, and the admin is never dropped |
| `Membership.SubjectsAreTouched` | crates/iroh-rooms-core/src/membership/fold.rs:672-698 | The subjects are exactly those an accepted event is about, without the admin |
| `Admission.FromSnapshot` | crates/iroh-rooms-net/src/admission.rs:180-198 | The table files each valid device under the greatest identity bound to it, whatever its status, and lists exactly the active identities |
| `Admission.JoinBootstrapAdmission.DecidesByTheRun` | crates/iroh-rooms-net/src/admission.rs:205-403 | After any run of view swaps and window flips: provisional exactly when the window is open and no member of the current snapshot is bound to the device; a closed window changes nothing; admitted exactly for an active, not fail-closed speaker, and refused as unknown, fail-closed or not active exactly when that is so, in this order |
| `Admission.JoinBootstrapAdmission.DeliveryNeedsBothSides` | crates/iroh-rooms-net/src/gossip.rs:455-469 | A gossip frame is accepted exactly when the local device and the neighbour are both in good standing in the view at delivery, whatever the window |
| `Admission.DecidesAtOneInstantExactly` | crates/iroh-rooms-net/src/admission.rs:391-403 | The decision is that of some instant of the call if and only if the device was bound at the first read, or is unknown at some instant at which the window is as the second read finds it |
| `Admission.DecidesAtOneInstant` | crates/iroh-rooms-net/src/admission.rs:391-403 | So it is when no view was swapped or no flip happened between the two reads |
| `Admission.ProvisionalAtNoInstant` | crates/iroh-rooms-net/src/admission.rs:391-403 | A swap that binds the device followed by a flip gives a provisional admission that no instant of the call would |
| `Admission.DeliveryAtOneInstantExactly` | crates/iroh-rooms-net/src/gossip.rs:455-469 | The outcome of the two checks of a delivery is that of some instant if and only if the local device was refused at the first check, or at some instant it stands while the neighbour is as the second check finds it |
| `Admission.AcceptedInOneViewExactly` | crates/iroh-rooms-net/src/gossip.rs:455-469 | With one swap between the checks, an accepted frame has a view with both devices in good standing if and only if the neighbour stood before the swap or the local device stands after it |
| `Admission.DeliveryAtOneInstant` | crates/iroh-rooms-net/src/gossip.rs:455-469 | A frame is accepted exactly when each device is in good standing at its own check; without a swap in between the outcome is that of one view |
| `Admission.DeliveredAtNoInstant` | crates/iroh-rooms-net/src/gossip.rs:455-469 | A swap that revokes the local device and brings the neighbour in lets a frame through although no view has both in good standing |
| `Admission.JoinBootstrapAdmission.SwapView` | crates/iroh-rooms-net/src/admission.rs:221-257 | Swapping a view makes the new snapshot current and leaves the window alone |
| `Admission.JoinBootstrapAdmission.StoreWindow` | crates/iroh-rooms-net/src/admission.rs:307-325 | Flipping the window leaves the roster alone |
| `Admission.AdmittedDevicesWereInvited` | crates/iroh-rooms-net/src/admission.rs:180-218 | A device admitted in a settled room for anyone but the admin signed a causally last join of that identity, which a live admin invite admits |
| `Admission.FoldIsWellKeyed` | crates/iroh-rooms-core/src/membership/fold.rs:641-725 | Every folded snapshot files members under their own identity |
| `Admission.IndexesAgreeExactly` | crates/iroh-rooms-core/src/membership/fold.rs:656-720 | The gate and the snapshot's device index resolve a device alike, except exactly when it is the admin's and every other identity bound to it sorts below the admin |
| `SharedDevice.IndexesDisagree` | crates/iroh-rooms-core/src/membership/fold.rs:656-720 | A settled room of three events in which the snapshot's index names the guest for a device that the gate admits as the admin |
| `Seeds.DesiredDevices` | crates/iroh-rooms-net/src/manager.rs:136-151 | The loop collects the valid devices of active members, without the node's own |
| `Seeds.DesiredSeeds` | crates/iroh-rooms-net/src/manager.rs:174-206 | The seeds are the devices with fewer than three others below them, and the active admin's device |
| `Seeds.AddAdmin` | crates/iroh-rooms-net/src/manager.rs:192-204 | The pass over the members adds exactly the active admin's device, unless it is the node's own |
| `Seeds.PrefixIsLowest` | crates/iroh-rooms-net/src/manager.rs:180-182 | The first k of an ascending set are the elements with fewer than k below them, and there are min(k, size) of them |
| `Seeds.SurvivesExactly` | crates/iroh-rooms-net/src/manager.rs:136-206 | After losing any set of devices the seed graph is connected if and only if at most one device is left or one of the three lowest devices or the active admin's is left |
| `Seeds.SurvivesFewLosses` | crates/iroh-rooms-net/src/manager.rs:136-206 | The seed graph is connected, and stays so after losing any two devices |
| `Seeds.LinksMeetHubs` | crates/iroh-rooms-net/src/manager.rs:174-206 | Two active devices are linked exactly when one of them is a hub |
| `Seeds.SeedsAreBounded` | crates/iroh-rooms-net/src/manager.rs:153-173 | At most K+1 seeds, all active, never the node itself; with at most K other devices, all of them |
| `Seeds.SameSeedsExactly` | crates/iroh-rooms-net/src/manager.rs:153-206 | Two active devices compute the same seeds if and only if neither is a hub, that is, one of the three lowest devices or the active admin's |
| `Seeds.TwoMembersDiffer` | crates/iroh-rooms-net/src/manager.rs:153-206 | In the room of its admin and one member the two nodes compute different seeds |
| `Seeds.SeedBoundIsMetExactly` | crates/iroh-rooms-net/src/manager.rs:174-206 | There are K+1 seeds if and only if the active admin's device is not the node's own and not among the K lowest others |
| `PeerManagers.PeerManager.Reconcile` | crates/iroh-rooms-net/src/manager.rs:240-362 | From any state the dial loops become exactly the target, the active links exactly the admitted set, stale on-demand links go, and the recorded stops and starts are exactly the differences, in device order |
| `PeerManagers.PeerManager.Plan` | crates/iroh-rooms-net/src/manager.rs:248-279 | The member, admitted and target sets of a reconcile |
| `PeerManagers.PeerManager.StopAll` | crates/iroh-rooms-net/src/manager.rs:322-342 | Each device to stop is torn down once, in order, in the way its standing calls for (`ManagerLaws.TeardownsExactly` says which) |
| `PeerManagers.PeerManager.StartAll` | crates/iroh-rooms-net/src/manager.rs:344-361 | A loop is started for each target without one, in order, and for nothing else |
| `PeerManagers.PeerManager.RouteOnDemand` | crates/iroh-rooms-net/src/manager.rs:412-464 | A pull toward an admitted device goes into its live link if the channel is open and has room, opens a link below the cap, or is reported as saturated (`ManagerLaws.PullIsKeptOrReported`) |
| `ManagerLaws.PullIsKeptOrReported` | crates/iroh-rooms-net/src/manager.rs:412-464 | A pull toward an admitted device lengthens its line by one, or, exactly when its channel is closed or full or eight others run, is reported and changes nothing; no other line moves |
| `ManagerLaws.PullsAreAccountedFor` | crates/iroh-rooms-net/src/manager.rs:412-464 | Over every run the pulls routed toward a device while admitted are those reported, those its tasks took, those waiting, and those waiting when their link was ended by its task, a reconcile or a shutdown |
| `PeerManagers.StopsMissTargets` | crates/iroh-rooms-net/src/manager.rs:287-342 | What a reconcile stops is disjoint from what it dials |
| `ManagerRuns.DeauthorizedOncePerLapse` | crates/iroh-rooms-net/src/manager.rs:240-397 | Over every run and build a device is deauthorized exactly as often as its admission lapses between successive reconciles, dialed or not |
| `ManagerRuns.LeftAloneUntilReadmitted` | crates/iroh-rooms-net/src/manager.rs:240-397 | After a lapse a device is neither deauthorized nor dropped before it is readmitted |
| `ManagerRuns.ReconcileTearsDownExactly` | crates/iroh-rooms-net/src/manager.rs:287-397 | In one reconcile a device is deauthorized once if it was admitted and no longer is, dropped once if it is admitted but no longer a seed of an overlay build, and otherwise untouched; no target is torn down |
| `ManagerLaws.TeardownsExactly` | crates/iroh-rooms-net/src/manager.rs:318-397 | A device is torn down with a receipt-bearing removal exactly when it was admitted, admission is enforced and no active member is bound to it; closed at once exactly when it was admitted and is refused otherwise; dropped exactly when it stays admitted but loses its loop; a loop is started exactly where one is wanted and none ran |
| `ManagerLaws.ReconcileLeaves` | crates/iroh-rooms-net/src/manager.rs:240-362 | Afterwards the admitted set is exactly the valid devices of active members, without the node, that the gate admits where it is enforced; all of them are dialed, or the seeds among them under the overlay; on-demand links stay unchanged toward them and go otherwise |
| `ManagerLaws.EffectsAreDistinct` | crates/iroh-rooms-net/src/manager.rs:322-361 | No stop or start of a reconcile is repeated |
| `ManagerLaws.ShutdownThenReconcile` | crates/iroh-rooms-net/src/manager.rs:478-497 | A shutdown leaves no loop and no on-demand link but remembers who is admitted; the next reconcile starts every loop it wants and drops nobody |
| `ManagerRuns.DefaultBuildNeverDrops` | crates/iroh-rooms-net/src/manager.rs:364-397 | Without the overlay the still-admitted teardown is never reached, from any state |
| `ManagerRuns.RepeatIsQuiet` | crates/iroh-rooms-net/src/manager.rs:218-229 | From any state, a repeated reconcile changes nothing and starts and stops nothing |
| `ManagerRuns.RunsAreBounded` | crates/iroh-rooms-net/src/manager.rs:412-464 | Over every serialised run warm links stay at most K+1, on-demand links at most 8 with at most 16 waiting frames each, and both within the admitted set |
| `ManagerBounds.BoundsAreMet` | crates/iroh-rooms-net/src/manager.rs:45-51 | A run that holds K+1 warm links and eight on-demand links to different devices, one more than K+8 |
| `ManagerRaces.CapsSurviveRaces` | crates/iroh-rooms-net/src/manager.rs:240-464 | The caps on warm links, on-demand links and their channels hold in every interleaving of the three locks of reconciles, the two of routes, task steps and shutdowns; dial loops are toward admitted devices or ones the reconcile in progress is revoking |
| `ManagerRaces.DeauthorizedPerLapseAndStray` | crates/iroh-rooms-net/src/manager.rs:240-464 | In every such interleaving a device is deauthorized once per lapse of its admission and once per link that a route opened after its device was revoked; so once per lapse exactly when there is no such link |
| `ManagerRaces.NoRaceNoStray` | crates/iroh-rooms-net/src/manager.rs:412-464 | There is no such link if at the second lock of every route the check of its first lock would still pass |
| `ManagerRaces.RaceTearsDownTwice` | crates/iroh-rooms-net/src/manager.rs:240-464 | A route that finishes between two locks of the reconcile that revokes its device leads to a further deauthorization |
| `ManagerRaces.ClearRepairs` | crates/iroh-rooms-net/src/manager.rs:297-316 | The second lock of a reconcile leaves on-demand links only toward admitted devices, in every interleaving |
| `ManagerRaces.PhasesCompose` | crates/iroh-rooms-net/src/manager.rs:240-362 | With nothing in between, the three locks make up one reconcile, effects included |
| `GossipMeshes.GossipMesh.BroadcastEvents` | crates/iroh-rooms-net/src/gossip.rs:328-391 | The answer is whether the mesh can carry the body; a carried body is in the window afterwards; a refusal records nothing |
| `GossipMeshes.AtMostOnce` | crates/iroh-rooms-net/src/gossip.rs:83-391 | From any reachable window, over any run carrying at most 128 distinct hashes with neighbours coming and going, no hash is broadcast twice |
| `GossipMeshes.RunsKeepWindow` | crates/iroh-rooms-net/src/gossip.rs:365-376 | The window is always the latest at most 128 broadcasts, in order, without repeats |
| `GossipMeshes.SentAgainExactly` | crates/iroh-rooms-net/src/gossip.rs:365-376 | A hash goes out again exactly when at least 128 broadcasts followed its last one |
| `GossipMeshes.BroadcastsExactly` | crates/iroh-rooms-net/src/gossip.rs:328-391 | A call broadcasts exactly when some neighbour is there, the body fits in a frame and its hash is not among the latest 128 broadcasts; otherwise nothing changes |
| `GossipMeshes.NeighborsAreCounted` | crates/iroh-rooms-net/src/gossip.rs:552-566 | While no absent neighbour leaves and the counter does not run over, the count is who came and did not leave |
| `GossipMeshes.LeavingNeverAdds` | crates/iroh-rooms-net/src/gossip.rs:552-566 | However neighbours leave, the count never exceeds those who were there and those who came |
| `MeshEpochs.InstalledIsCurrent` | crates/iroh-rooms-net/src/gossip.rs:577-667 | In every interleaving an installed mesh carries its room's current epoch, unless a newer attempt is about to drop it; below 2^64 attempts it is the latest attempt's |
| `MeshEpochs.InstallsExactly` | crates/iroh-rooms-net/src/gossip.rs:638-656 | An attempt installs exactly when it is a whole number of 2^64 attempts behind the latest, so below that a superseded one never does |
| `MeshEpochs.RemoveCancelsNothing` | crates/iroh-rooms-net/src/gossip.rs:662-667 | After a removal the latest attempt in flight can still install |
| `MeshEpochs.FirstAttemptReturns` | crates/iroh-rooms-net/src/gossip.rs:623-635 | The counter wraps: after 2^64 further attempts the first one is current again |
| `MeshEpochs.ReachableIsSafe` | crates/iroh-rooms-net/src/gossip.rs:577-667 | Every interleaving keeps epochs equal to attempt counts modulo 2^64 and installed meshes current |
| `MeshEpochs.GossipState.BeginMeshAttempt` | crates/iroh-rooms-net/src/gossip.rs:623-635 | The epoch returned is the attempt count modulo 2^64, and the room's mesh is gone |
| `MeshEpochs.GossipState.InstallMeshIfCurrent` | crates/iroh-rooms-net/src/gossip.rs:638-656 | The mesh is installed exactly when its epoch is the room's current one |
| `MeshEpochs.GossipState.RemoveMesh` | crates/iroh-rooms-net/src/gossip.rs:662-667 | Only the named room's mesh goes, and it is returned |
| `CborReader.DecodesExactly` | crates/iroh-rooms-core/src/event/cbor.rs:17-19 | Input decodes to a value if and only if the value is canonical, within the depth bound, and the input is its encoding |
| `CborReader.RoundTrip` | crates/iroh-rooms-core/src/event/cbor.rs:114-355 | A value without repeated keys comes back from its encoding with every map in key order |
| `CborReader.ReadIsWritten` | crates/iroh-rooms-core/src/event/cbor.rs:294-355 | Whatever is read is canonical and its bytes are exactly what was consumed |
| `CborReader.ReadWritten` | crates/iroh-rooms-core/src/event/cbor.rs:294-355 | Any value, its entries in any order, is read back whole or refused for its first fault in reading order: too deep, key out of order, key repeated |
| `CborReader.FaultlessExactly` | crates/iroh-rooms-core/src/event/cbor.rs:294-355 | A value is without fault exactly when it is canonical and within the depth bound |
| `CborFaults.EncodingsDecode` | crates/iroh-rooms-core/src/event/cbor.rs:114-355 | Encoding and decoding any value gives it back in key order exactly when no map repeats a key and it is not too deep; otherwise the error says which of the two |
| `CborFaults.UnsortedIsRefused` | crates/iroh-rooms-core/src/event/cbor.rs:321-349 | A map written out of key order is refused as unsorted when nothing else is wrong |
| `CborFaults.TruncatedIsRefused` | crates/iroh-rooms-core/src/event/cbor.rs:199-355 | Every proper prefix of an accepted encoding is refused as ending too early |
| `CborFaults.TrailingIsRefused` | crates/iroh-rooms-core/src/event/cbor.rs:199-207 | Anything after an accepted encoding is refused as trailing |
| `CborFaults.LongFormIsRefused` | crates/iroh-rooms-core/src/event/cbor.rs:231-276 | An argument in a longer form than it needs is refused, for every form |
| `CborFaults.ReservedIsRefused` | crates/iroh-rooms-core/src/event/cbor.rs:270-274 | Reserved additional information and indefinite lengths are refused, each by name |
| `CborFaults.ForeignIsRefused` | crates/iroh-rooms-core/src/event/cbor.rs:294-355 | Negative integers, tags, floats and simple values are refused, each by name |
| `CborFaults.BadTextIsRefused` | crates/iroh-rooms-core/src/event/cbor.rs:306-311 | A text that is not UTF-8 is refused as such, whatever follows |
| `CborFaults.NonTextKeyIsRefused` | crates/iroh-rooms-core/src/event/cbor.rs:325-331 | A map key that is no text is refused as such |
| `CborFaults.OverlongIsRefused` | crates/iroh-rooms-core/src/event/cbor.rs:278-292 | A count the remaining input cannot hold is refused before anything is read, as an overflow exactly when it does not fit |
| `Utf8.Utf8Exactly` | crates/iroh-rooms-core/src/event/cbor.rs:306-311 | A byte string is accepted as text exactly when it encodes some sequence of Unicode scalar values |
| `CborParsers.Decode` | crates/iroh-rooms-core/src/event/cbor.rs:199-207 | The reader that advances a position in place computes the decoder, errors included |
| `CborParsers.Reader.NextValue` | crates/iroh-rooms-core/src/event/cbor.rs:294-355 | Reading in place gives the decoder's value or error, and leaves the position after the value |
| `CborParsers.Reader.NextEntries` | crates/iroh-rooms-core/src/event/cbor.rs:321-349 | The map loop with its previous key computes the recursive entry reader |
| `CborParsers.Reader.NextItems` | crates/iroh-rooms-core/src/event/cbor.rs:312-320 | The array loop computes the recursive item reader |
| `CborParsers.Reader.NextHead` | crates/iroh-rooms-core/src/event/cbor.rs:231-276 | The head reader in place |
| `CborParsers.Reader.Take` | crates/iroh-rooms-core/src/event/cbor.rs:215-223 | The next bytes, or an overflow or end of input with nothing consumed |
| `CborHeads.ReadWrittenHead` | crates/iroh-rooms-core/src/event/cbor.rs:165-276 | A written head is read back, whatever follows it |
| `CborHeads.ReadHeadIsWritten` | crates/iroh-rooms-core/src/event/cbor.rs:231-276 | Only shortest forms are read: the bytes read are those that would be written |
| `Cbor.EncodeIsWrite` | crates/iroh-rooms-core/src/event/cbor.rs:114-149 | Sorting at every map while encoding equals canonicalizing first and writing in order |
| `Cbor.CanonicalIsCanonical` | crates/iroh-rooms-core/src/event/cbor.rs:135-147 | Sorting a map with distinct keys gives strictly ascending encoded keys |
| `KeyOrder.SortAscends` | crates/iroh-rooms-core/src/event/cbor.rs:135-147 | The stable sort puts distinct keys in strictly ascending order |
| `KeyOrder.SortHolds` | crates/iroh-rooms-core/src/event/cbor.rs:135-147 | Sorting keeps exactly the entries |
| `Base32.DecodesExactly` | crates/iroh-rooms-core/src/ticket.rs:224-243 | A text decodes to some bytes if and only if it is their encoding, for every length; this is section 6 of RFC 4648 with the canonical trailing bits of section 3.5 |
| `Base32.SymbolsRoundTrip` | crates/iroh-rooms-core/src/ticket.rs:224-243 | Regrouping bits by five and back returns the bytes, whatever the length modulo five |
| `Base32.SymbolsSpellTheBytes` | crates/iroh-rooms-core/src/ticket.rs:224-243 | The symbols as base-32 digits spell the number the bytes spell in base 256, shifted by the filling zero bits |
| `Base32.AlphabetIs` | crates/iroh-rooms-core/src/ticket.rs:224-243 | The symbols are A to Z and 2 to 7 in this order, section 6 of RFC 4648 |
| `Tickets.FromBodyExactly` | crates/iroh-rooms-core/src/ticket.rs:185-309 | A value parses to a ticket exactly when it is a map holding each of the ticket's fields at its exact type and length, with expiry present exactly when the ticket has one |
| `Tickets.ToCborBody` | crates/iroh-rooms-core/src/ticket.rs:145-182 | The pushed entries are the ticket's fields in source order |
| `TicketLayout.BodyLayout` | crates/iroh-rooms-core/src/ticket.rs:145-182 | The encoded body holds role, secret, invitee, inviter, room_id, discovery, invite_id in this order, each with its own value, and expires_at last exactly when the ticket expires |
| `Tickets.GetCanonical` | crates/iroh-rooms-core/src/ticket.rs:282-284 | Sorting a map's entries keeps what each key finds |
| `TicketTokens.RoundTrip` | crates/iroh-rooms-core/src/ticket.rs:145-260 | Every ticket comes back from its printed token |
| `TicketTokens.TokenLayout` | crates/iroh-rooms-core/src/ticket.rs:216-229 | A token is roomtkt1, then in lower case the base32 of a version byte 1, the encoded body and the first four bytes of the hash of both |
| `TicketTokens.ParsesExactly` | crates/iroh-rooms-core/src/ticket.rs:232-260 | A text parses to a ticket if and only if it is, up to letter case of the body, the token of a canonical map that describes the ticket |
| `TicketTokens.FirstFailingStage` | crates/iroh-rooms-core/src/ticket.rs:235-260 | Each error is given exactly when its stage is the first to fail, in the order prefix, base32, length, version, checksum, body; the body stage fails exactly when a sound frame carries no ticket |
| `TicketTokens.CaseDoesNotMatter` | crates/iroh-rooms-core/src/ticket.rs:239-241 | Texts that differ only in the letter case of the body parse alike |
| `TicketTokens.PrintedAlphabet` | crates/iroh-rooms-core/src/ticket.rs:32-34 | After the prefix a token holds only a-z and 2-7 |
| `TicketTokens.SealedExactly` | crates/iroh-rooms-core/src/ticket.rs:217-254 | A payload passes the length, version and checksum tests exactly when it is the sealing of its body |
| `TicketTokens.PrintAfterParseExactly` | crates/iroh-rooms-core/src/ticket.rs:185-260 | Printing a parsed ticket gives the text back in lower case exactly when its map holds only known keys |
| `TicketTokens.UnknownKeyIsLost` | crates/iroh-rooms-core/src/ticket.rs:185-260 | For every ticket and every other key there is a text that parses to the ticket and differs from what the ticket prints as |
| `TicketTokens.Display` | crates/iroh-rooms-core/src/ticket.rs:216-229 | The appended payload prints as the token |
| `Calendar.CivilHasDayNumber` | crates/iroh-rooms-cli/src/display.rs:175-186 | For every day number the computed date is a real date whose day number is the input |
| `Calendar.CivilInvertsDayNumber` | crates/iroh-rooms-cli/src/display.rs:175-186 | Every real date is the result for its own day number |
| `Calendar.CivilStepsThroughCalendar` | crates/iroh-rooms-cli/src/display.rs:175-186 | The date of day z+1 is the calendar date after that of day z |
| `Calendar.CivilOfEpoch` | crates/iroh-rooms-cli/src/display.rs:175-186 | Day zero is 1970-01-01 |
| `Calendar.CivilIsMonotone` | crates/iroh-rooms-cli/src/display.rs:175-186 | Dates order exactly as their day numbers |
| `Calendar.EraIsFloor` | crates/iroh-rooms-cli/src/display.rs:177-178 | The adjusted truncating division is a floor division for negative days too |
| `Calendar.OverflowExactly` | crates/iroh-rooms-cli/src/display.rs:175-186 | No intermediate value leaves i64 exactly when the day number is at most i64::MAX - 719468 |
| `Timestamp.NoTimestampOverflows` | crates/iroh-rooms-cli/src/display.rs:164-171 | No u64 millisecond input overflows or saturates |
| `Timestamp.FieldsNameTheSecond` | crates/iroh-rooms-cli/src/display.rs:164-171 | The fields are a real date and time that name the input second |
| `Timestamp.FieldsAreUnique` | crates/iroh-rooms-cli/src/display.rs:164-171 | They are the only real date and time that do |
| `Timestamp.FieldsSortChronologically` | crates/iroh-rooms-cli/src/display.rs:164-171 | Lexicographic order of fields is chronological order for all inputs, both ways |
| `Timestamp.TextReadsBack` | crates/iroh-rooms-cli/src/display.rs:164-171 | The text reads back: a year of at least four digits, then month, day, hour, minute and second of the instant in two digits each, with the separators of an ISO 8601 time in UTC |
| `Timestamp.RenderedOrderExactly` | crates/iroh-rooms-cli/src/display.rs:164-171 | For an earlier and a later instant the texts sort that way exactly when the earlier year is at most as many leading digits of the later year as it has itself |
| `Timestamp.RenderedOrderUpTo9999` | crates/iroh-rooms-cli/src/display.rs:164-171 | Up to year 9999 texts sort exactly as instants do |
| `Timestamp.Year10000SortsEarly` | crates/iroh-rooms-cli/src/display.rs:164-171 | The first second of year 10000 sorts before the last of year 9999 |

## Left out

- Membership.Fold: the fold, the gate and their helpers compute on sets of accepted events instead of looping over slices; the loops of the engine around them are modelled.
- Cbor.Encode: the encoder returns its bytes instead of appending them to one output vector.
- Equivocation and removed-member flags, sender heads and the admin-divergence detector: advisory, they change no verdict and no snapshot.
- QueueWakeup: its depth test is that of queued bytes that fit in a usize, as bytes held in memory do; a build with overflow checks would stop where `TotalDepth` wraps.
- Message classification (`classify_sync_message`, `classify_inbound_bytes`): a parameter of the wire path.
- Tokio's `Notify` is specified as one permit and one waiter; its implementation, and timers, task spawning and QUIC, are not modelled.
- ManagerRaces: reconciles follow one another, as the one driver that calls them makes them; two at once are not modelled.
- Link generations, the per-peer tables, terminal receipts and audit sinks: reconcile records what it asks of them.
- `AllowlistAdmission`: the same decision order over a frozen table.
- The sync engine, event store, stateless event validation, the crypto crate and the command line: outside this model.
- Reconnection backoff, handle parsers and small validators: they would only add easy members.
