# A verified model of the renegade relayer core

Renegade is a dark pool: relayer nodes hold encrypted wallets and orders, gossip with each other over
a peer-to-peer network, replicate state through a task queue and an order book, and prove wallet
updates with zero-knowledge circuits. This project is a Dafny model of the core of that relayer.
It covers:

- **Gossip** (`Heartbeat`, `HeartbeatTimer`, `GossipTypes`, `Multiaddr`).
  - The known-peer index, the LRU expiry cache and wallet replica sets that heartbeats merge.
  - Peer expiry and the heartbeat timer's round-robin over peers.
  - The `PeerInfo` record and how it is serialised.
  - Port replacement in a multiaddress.
- **Replicated state** (`TaskQueue`, `OrderBook`).
  - Per-key task queues, with their history and the pause/resume protocol.
  - The order book table, with its nullifier index, proofs, cancellation and the effective priority.
- **Wallet types** (`Wallets`, `Keychain`, `Transfers`, `Matches`, `Padding`, `Scalars`).
  - Insertion-ordered maps and conversion to the fixed-size circuit wallet.
  - Removal of default elements, choice of balance and fee for an order, and reblinding.
  - The big-integer key split into scalar words.
  - The transfer direction and the match-result conversions.
- **Circuits** (`Poseidon`, `Merkle`, `CircuitTypeMacro`).
  - How hash inputs are flattened, and the sponge.
  - The Merkle root gadget and its commitment layout.
  - Argument parsing, generics handling and field order in the `circuit_type` derive macro.
- **Chain clients** (`DarkpoolConstants`, `StarknetClient`).
  - The chain names.
  - The default authentication path of the empty Merkle tree.

Code that works by mutation is modelled as classes with `modifies` clauses. This covers:

- the gossip node, the LRU cache and the heartbeat timer;
- the state of each task queue and the order-book applicator with its transaction;
- the wallet, the sponge and the constraint system.

Loops are modelled as `while` loops proved against specification functions. Pure conversions are
modelled as functions, with lemmas for their round trips and layouts.

Hashes, commitments, clock reads, randomness, parsing and channels are parameters of the model.
Integers are unbounded. Widths such as `u32` and `u64` appear as explicit bounds where the source
depends on them.

## Model

| member | source | states |
|---|---|---|
| GossipTypes.CollectBytes | core/src/gossip/types.rs:126-129 | The byte-collecting loop yields every element in order, or stops at the first error and returns it |
| GossipTypes.DecodePeerId | core/src/gossip/types.rs:122-136 | The visitor accepts a stream exactly when it has no error and its bytes form a valid peer id, and then returns that id |
| GossipTypes.VisitSeq | core/src/gossip/types.rs:122-136 | The visitor loop pushes every element, propagates the first error and validates the collected bytes; its result is `DecodePeerId` of the stream |
| GossipTypes.CollectFailureExtends | core/src/gossip/types.rs:127 | An error after a clean prefix is the error of the whole stream, whatever follows it |
| GossipTypes.CollectElements | core/src/gossip/types.rs:126-129 | A stream without errors collects to exactly its bytes |
| GossipTypes.PeerIdRoundTrip | core/src/gossip/types.rs:92-136 | Deserialising the serialised bytes of a valid id gives the id back; bytes that are not a valid id are refused |
| GossipTypes.DecodePeerInfo | core/src/gossip/types.rs:14-25 | Decoding the wire form succeeds exactly when the id bytes are a valid id, and then gives that id and address with heartbeat 0 |
| GossipTypes.PeerInfo.constructor | core/src/gossip/types.rs:28-34 | `new` stores the id and address, and the current time as the last heartbeat |
| GossipTypes.PeerInfo.GetPeerId | core/src/gossip/types.rs:37-39 | Returns exactly the stored peer id |
| GossipTypes.PeerInfo.GetAddr | core/src/gossip/types.rs:41-43 | Returns exactly the stored address |
| GossipTypes.PeerInfo.GetLastHeartbeat | core/src/gossip/types.rs:51-53 | Returns exactly the stored heartbeat |
| GossipTypes.PeerInfo.SuccessfulHeartbeat | core/src/gossip/types.rs:46-49 | Sets the heartbeat to the current time and changes nothing else |
| GossipTypes.PeerInfo.Clone | core/src/gossip/types.rs:57-65 | A fresh record with the same id and address and the stored heartbeat, not the current time; the original is untouched |
| GossipTypes.PeerInfo.Serialize | core/src/gossip/types.rs:14-25 | Serialisation writes exactly the id's bytes and the address; the heartbeat is skipped |
| GossipTypes.PeerInfo.SerdeRoundTrip | core/src/gossip/types.rs:14-25 | Serialise then deserialise restores the id and address; the heartbeat comes back as 0 whatever was stored |
| GossipTypes.DeserializePeerInfo | core/src/gossip/types.rs:14-25 | The derived deserialiser builds a fresh record with the decoded id and address and heartbeat 0, or fails with the id's error |
| Multiaddr.Name | workers/network-manager/src/manager.rs:56 | A component's tag in the protocol stack is `udp` exactly when it is a UDP component |
| Multiaddr.FirstTransport | workers/network-manager/src/manager.rs:65-71 | The index found is that of a `udp` component with none before it; nothing is found exactly when there is no `udp` component |
| Multiaddr.ReplacePort | workers/network-manager/src/manager.rs:63-81 | With a `udp` component, the first one takes the port, the length is unchanged and every other component is kept; without one, `udp/port` is appended |
| Multiaddr.ReplacePortIdempotent | workers/network-manager/src/manager.rs:63-81 | After a replacement a `udp` component carries the port, and replacing the same port again changes nothing |
| Multiaddr.FirstTransportIs | workers/network-manager/src/manager.rs:65-71 | A `udp` component at `i` with none before it is the one found |
| Multiaddr.ReplacePortExample | workers/network-manager/src/manager.rs:369-377 | `/ip4/127.0.0.1/udp/8000/quic-v1/p2p/<id>` with port 9000 becomes the same address with `udp/9000` |
| Scalars.ScalarToU64 | circuit-types/src/transfers.rs:50 | A scalar below 2^64 converts to the same number |
| Padding.PadTake | common/src/types/wallet.rs:150-181 | The chained-defaults-then-take idiom: exactly `n` entries, the list's own entries first and defaults after |
| Transfers.Discriminant | circuit-types/src/transfers.rs:37-42 | The discriminant is 0 exactly for Deposit and is below 2 |
| Transfers.ToScalars | circuit-types/src/transfers.rs:45-47 | One scalar: 0 exactly for Deposit and 1 exactly for Withdrawal |
| Transfers.FromScalars | circuit-types/src/transfers.rs:49-55 | A successful decode consumes exactly one scalar and leaves the rest; an empty iterator or a value other than 0 or 1 fails (the panics) |
| Transfers.DefaultDirection | circuit-types/src/transfers.rs:67-71 | The default has discriminant 0, that of Deposit |
| Transfers.IntoScalar | circuit-types/src/transfers.rs:73-77 | The scalar of a direction is the single element of `to_scalars` |
| Transfers.FromScalarsAccepts | circuit-types/src/transfers.rs:49-55 | Decoding accepts exactly the scalars whose low 64 bits are 0 or 1, mapping 0 to Deposit and 1 to Withdrawal |
| Transfers.RoundTrip | circuit-types/src/transfers.rs:45-55 | Decoding what was encoded gives back the direction and leaves the rest of the iterator untouched |
| Heartbeat.LruCache.Get | core/src/gossip/heartbeat.rs:271 | Returns the stored expiry time, if any; a present key becomes the most recently used and the content is unchanged |
| Heartbeat.LruCache.PopEntry | core/src/gossip/heartbeat.rs:277 | Returns the removed value; the key is gone and nothing else changes |
| Heartbeat.LruCache.Put | core/src/gossip/heartbeat.rs:346 | The key maps to the value as the most recently used entry. When it was absent from a full cache, the least recently used entry is evicted and no other entry changes |
| Heartbeat.LruCache.constructor | core/src/gossip/heartbeat.rs:46 | A new expiry cache is empty and within its capacity of EXPIRY_CACHE_SIZE |
| Heartbeat.PeersToAdd | core/src/gossip/heartbeat.rs:106-116 | The ids, in iteration order, of the incoming keys whose ids are not known |
| Heartbeat.PeersToAddMembers | core/src/gossip/heartbeat.rs:106-116 | An id is to be added exactly when it is parsed from an incoming key and is not a known peer |
| Heartbeat.AdmittedFromMeaning | core/src/gossip/heartbeat.rs:128-137 | Offering the ids one by one admits exactly those the expiry cache lets through |
| Heartbeat.AnnouncementsMatchAdmitted | core/src/gossip/heartbeat.rs:280-295 | An id is announced to the network manager exactly when it is admitted, and then with the address of its incoming record |
| Heartbeat.NothingToAdmit | core/src/gossip/heartbeat.rs:118-121 | With no new peers, nothing is admitted or announced |
| Heartbeat.MergeWalletsGrowsOnly | core/src/gossip/heartbeat.rs:147-214 | Merging keeps the managed wallets and only grows their replica sets. It adds only replicas the message lists that are known peers, adds every such replica, and leaves wallets absent from the message untouched |
| Heartbeat.MergeSkipIsSound | core/src/gossip/heartbeat.rs:164-176 | Skipping wallets whose replicas already contain the incoming ones gives the same result as merging every shared wallet |
| Heartbeat.GossipNode.RecordHeartbeat | core/src/gossip/heartbeat.rs:63-67 | A known peer's heartbeat becomes `now`; an unknown peer is ignored; nothing else changes |
| Heartbeat.GossipNode.BuildHeartbeatMessage | core/src/gossip/heartbeat.rs:350-352 | The message carries the current known-peer index and managed wallets |
| Heartbeat.GossipNode.constructor | core/src/gossip/heartbeat.rs:75-79 | The node holds the given local id, peer index and wallets, an empty expiry cache and nothing sent |
| Heartbeat.GossipNode.AddNewPeer | core/src/gossip/heartbeat.rs:263-297 | A peer expired at most ten seconds ago is refused, and its cache entry stays (now most recently used). Otherwise its cache entry is dropped; if it is unknown, it is indexed with a fresh heartbeat and announced, and a known peer is left as it was. The answer is true exactly when the peer was admitted |
| Heartbeat.GossipNode.ConsultExpiryCache | core/src/gossip/heartbeat.rs:270-278 | A peer inside its invisibility window is refused; any other is let through and its entry removed |
| Heartbeat.GossipNode.IndexPeer | core/src/gossip/heartbeat.rs:280-295 | An unknown peer is indexed with a fresh heartbeat and announced; a known peer's record is not replaced |
| Heartbeat.GossipNode.MergePeerIndex | core/src/gossip/heartbeat.rs:98-139 | A key that does not parse fails the merge with no change. Otherwise exactly the admitted new peers are indexed and announced in order, and known peers are untouched |
| Heartbeat.GossipNode.AdmitPeers | core/src/gossip/heartbeat.rs:123-137 | Every offered id the cache admits is indexed with a copy of its incoming record and announced in order; the others change nothing |
| Heartbeat.GossipNode.OfferAll | core/src/gossip/heartbeat.rs:123-137 | The offer loop leaves exactly the admitted ids indexed, with fresh records copied from the message, and exactly their announcements appended in order |
| Heartbeat.GossipNode.OfferStep | core/src/gossip/heartbeat.rs:128-136 | One offer to `add_new_peer` extends the admitted set and the announcement log by its verdict |
| Heartbeat.GossipNode.MergeWallets | core/src/gossip/heartbeat.rs:147-214 | The new replica sets are those of the merge specification: the managed wallets gain the message's known replicas |
| Heartbeat.GossipNode.MaybeExpirePeer | core/src/gossip/heartbeat.rs:324-347 | The peer is removed and `now` recorded in the expiry cache exactly when seven seconds or more passed since its last heartbeat; otherwise nothing changes |
| Heartbeat.GossipNode.SendHeartbeat | core/src/gossip/heartbeat.rs:299-321 | To the local peer nothing is sent and nothing changes. Any other peer gets the heartbeat message and is then checked for expiry |
| Heartbeat.GossipNode.MergeStateFromMessage | core/src/gossip/heartbeat.rs:75-94 | The peer index is merged first and its error ends the merge; then the wallets are merged against the updated index |
| Heartbeat.CollectPeersToAdd | core/src/gossip/heartbeat.rs:105-116 | Fails on the first key that does not parse; otherwise returns the unknown ids in iteration order |
| Heartbeat.WalletsToMerge | core/src/gossip/heartbeat.rs:157-178 | Exactly the managed wallets the message lists whose local replicas lack some incoming replica |
| Heartbeat.AddKnownReplicas | core/src/gossip/heartbeat.rs:202-211 | Every message replica that is a known peer joins the local set; the others are skipped |
| Heartbeat.ToAddDistinct | core/src/gossip/heartbeat.rs:109-115 | Distinct canonical keys parse to distinct ids, so no peer is offered twice |
| Heartbeat.ToAddRendered | core/src/gossip/heartbeat.rs:128-129 | Every peer offered finds its incoming record under its own rendering |
| HeartbeatTimer.AsU32 | core/src/gossip/heartbeat.rs:372 | A number below 2^32 casts to itself |
| HeartbeatTimer.NewDuration | core/src/gossip/heartbeat.rs:373 | `Duration::new` carries whole seconds out of the nanoseconds; it fails exactly on seconds overflow, and otherwise gives a normalised duration of the same total |
| HeartbeatTimer.WaitPeriodExact | core/src/gossip/heartbeat.rs:371-373 | The interval splits into `interval / 1000` seconds and `(interval mod 1000) * 10^6` nanoseconds, below 10^9, with the same total |
| HeartbeatTimer.HeartbeatPeriod | core/src/gossip/heartbeat.rs:36-38 | The heartbeat interval gives a wait period of exactly 3 seconds |
| HeartbeatTimer.DivDurationFloor | core/src/gossip/heartbeat.rs:436-437 | Dividing a duration fails exactly for divisor 0, and otherwise gives the floor of the total nanoseconds |
| HeartbeatTimer.DivDurationParts | core/src/gossip/heartbeat.rs:436-437 | For a positive divisor the seconds are divided and their remainder carried into the nanoseconds, which stay below 10^9 |
| HeartbeatTimer.NextPeer | core/src/gossip/heartbeat.rs:404-414 | A job is sent exactly when the index is inside the key list and names a peer other than the local one, and then to that peer |
| HeartbeatTimer.NextIndex | core/src/gossip/heartbeat.rs:428-431 | The index advances by one or wraps to 0; it stays below a positive peer count, and wraps exactly when the next one would reach the count |
| HeartbeatTimer.QuantaFitPeriod | core/src/gossip/heartbeat.rs:436-438 | The sleep quantum exists, and `peer_count` quanta fit into the wait period with less than one quantum left over |
| HeartbeatTimer.TimerLoop.constructor | core/src/gossip/heartbeat.rs:402 | The loop starts at peer index 0 with no jobs sent and no time slept |
| HeartbeatTimer.TimerLoop.Pass | core/src/gossip/heartbeat.rs:403-438 | One pass enqueues a job for the indexed peer unless it is local, fails on a closed channel with nothing changed, advances the index, and sleeps one quantum (fails on an empty key list) |
| HeartbeatTimer.OthersOf | core/src/gossip/heartbeat.rs:404-414 | The peers of the key list other than the local one |
| HeartbeatTimer.RoundRobin | core/src/gossip/heartbeat.rs:397-439 | Starting at index 0, `n` passes over `n` unchanged peers send one heartbeat to every non-local peer, in order |
| HeartbeatTimer.ExecutionLoop | core/src/gossip/heartbeat.rs:397-439 | A run over a series of peer snapshots enqueues exactly the jobs of the specification, sleeps once per pass, and leaves the index below the last snapshot's size |
| TaskQueue.FromQueuedTask | state/src/interface/task_queue.rs:68-70 | A queued task has a historical form exactly when its descriptor has one, and that form keeps its id, state and queue key |
| TaskQueue.SaturatingSub | state/src/interface/task_queue.rs:65-66 | `a - b` when `b <= a`, and 0 otherwise |
| TaskQueue.FilterHistoricalAppend | state/src/interface/task_queue.rs:68-70 | The `filter_map` over the live tasks distributes over concatenation, so it keeps their order and multiplicity |
| TaskQueue.TruncatedHistory | state/src/interface/task_queue.rs:67 | The newest `min(n, history length)` historical tasks: a prefix of the newest-first history |
| TaskQueue.GetTaskHistory | state/src/interface/task_queue.rs:58-76 | At most `len` tasks: the live tasks first in queue order, then historical tasks newest first. At most `len` minus the queue length (saturating at 0) historical tasks are taken, and the length is exactly the smaller of `len` and the described live tasks plus the fetched history |
| TaskQueue.CurrentRunningTask | state/src/interface/task_queue.rs:125 | Some exactly for a non-empty queue, and then its front task |
| TaskQueue.CurrentCommittedTask | state/src/interface/task_queue.rs:119-129 | Some id exactly when the front task is running and committed, and then the front task's id |
| TaskQueue.AppendThenContains | state/src/interface/task_queue.rs:22-41 | After an append `contains_task` finds the task, and `get_task_queue_len` grows by one on its queue and nowhere else |
| TaskQueue.StartHead | state/src/interface/task_queue.rs:293-302 | The front task moves from Queued to running, any other front task and every later task are kept |
| TaskQueue.SetState | state/src/interface/task_queue.rs:333-359 | Each task carrying the id gets the new state and every other task is kept, position by position |
| TaskQueue.StateInner.SendProposal | state/src/interface/task_queue.rs:168-171 | The proposal is logged and applied to the state before the call returns |
| TaskQueue.StateInner.AppendTaskToQueue | state/src/interface/task_queue.rs:152-172 | Returns the chosen id; proposes a new task with that id, in state Queued and stamped `now`, executed by the local peer, and applies it |
| TaskQueue.StateInner.PopTaskFromQueue | state/src/interface/task_queue.rs:176-183 | Proposes and applies popping that task with its outcome |
| TaskQueue.StateInner.TransitionTaskState | state/src/interface/task_queue.rs:186-193 | Proposes and applies the state transition of that task |
| TaskQueue.StateInner.ClearQueue | state/src/interface/task_queue.rs:196-198 | Proposes and applies the clearing of the queue |
| TaskQueue.StateInner.PauseMultipleTaskQueues | state/src/interface/task_queue.rs:213-229 | Proposes the given task in state Preemptive for every listed queue, and applies it |
| TaskQueue.StateInner.PauseTaskQueue | state/src/interface/task_queue.rs:201-208 | Exactly the multi-queue pause on the one-key list |
| TaskQueue.StateInner.ResumeMultipleTaskQueues | state/src/interface/task_queue.rs:242-248 | Proposes and applies the resumption of the listed queues |
| TaskQueue.StateInner.ResumeTaskQueue | state/src/interface/task_queue.rs:232-238 | Exactly the multi-queue resume on the one-key list |
| TaskQueue.StateInner.ReassignTasksFrom | state/src/interface/task_queue.rs:251-258 | Proposes and applies reassigning the failed peer's tasks to the local peer |
| TaskQueue.AppendToEmptyStarts | state/src/interface/task_queue.rs:286-305 | Appending to an empty unpaused queue gives one task, already running, and `contains_task` then finds it |
| TaskQueue.AppendTouchesOneQueue | state/src/interface/task_queue.rs:152-172 | Appending leaves every other queue and its history unchanged |
| TaskQueue.PopOnlyTaskEmpties | state/src/interface/task_queue.rs:309-329 | Popping the only task empties the queue (length 0) and records it in the history with its outcome |
| TaskQueue.TransitionThenCommitted | state/src/interface/task_queue.rs:363-397 | After moving the front task to Running, `current_committed_task` reports it exactly when the state is committed |
| TaskQueue.PairsLeaveQueueEmpty | state/src/interface/task_queue.rs:401-435 | Each append/pop pair on an empty queue leaves it empty and pushes one Completed task on the history |
| TaskQueue.HistoryKeepsSuffix | state/src/interface/task_queue.rs:401-435 | The pairs only push onto the history; what was there stays at its end |
| TaskQueue.AppendsToBusyQueue | state/src/interface/task_queue.rs:401-435 | Appending to a running queue adds Queued tasks at the back and leaves the history alone |
| TaskQueue.FilterKeepsDescribed | state/src/interface/task_queue.rs:401-435 | Tasks that all have historical descriptions are all kept, in order and with their states |
| TaskQueue.ScenarioState | state/src/interface/task_queue.rs:401-435 | After N pairs and then M appends to an empty queue, the first appended task runs, the rest wait, and the history holds N Completed tasks |
| TaskQueue.TaskHistoryScenario | state/src/interface/task_queue.rs:401-435 | With 1 <= M <= N, the N-long history shows one Running task, then M-1 Queued tasks, then Completed tasks |
| OrderBook.EffectivePriority | statev2/src/applicator/order_book.rs:63-67 | The product of cluster and order priority: a factor of 1 leaves the other, and it is 0 exactly when a factor is 0 |
| OrderBook.ClusterPriority | statev2/src/applicator/order_book.rs:221-228 | A cluster with no stored priority has the default priority |
| OrderBook.NewOrderHasDefaultPriority | statev2/src/applicator/order_book.rs:54-61 | A new order of a cluster with no stored priority gets the default priority, whose effective value is 1 |
| OrderBook.Decimal | statev2/src/applicator/order_book.rs:308-315 | A non-empty decimal rendering that parses back to the number |
| OrderBook.OrderKey | statev2/src/applicator/order_book.rs:308-310 | `order:` followed by the id's decimal rendering |
| OrderBook.NullifierKey | statev2/src/applicator/order_book.rs:313-315 | `nullifier:` followed by the nullifier's decimal rendering |
| OrderBook.KeysNeverCollide | statev2/src/applicator/order_book.rs:308-315 | An order key never equals a nullifier key, and each builder is injective |
| OrderBook.ReadOrderInfoUnchecked | statev2/src/applicator/order_book.rs:191-198 | A missing order is a MissingEntry error; a stored order is returned as stored |
| OrderBook.Without | statev2/src/applicator/order_book.rs:261-263 | The filter keeps exactly the ids other than the one removed |
| OrderBook.EmptyTableValid | statev2/src/applicator/order_book.rs:281-294 | The empty table satisfies the index invariant |
| OrderBook.AppendKeepsSetsDistinct | statev2/src/applicator/order_book.rs:281-294 | Appending succeeds and keeps every nullifier set free of duplicates; the set then holds the id and all its old members |
| OrderBook.WithoutKeepsOrder | statev2/src/applicator/order_book.rs:254-267 | The filter distributes over concatenation and leaves a set without the id unchanged, so the others keep their order |
| OrderBook.WithoutKeepsDistinct | statev2/src/applicator/order_book.rs:254-267 | The filter keeps a duplicate-free set duplicate-free |
| OrderBook.DropFromOldSet | statev2/src/applicator/order_book.rs:254-262 | Dropping the id from its old set removes it from the index and touches nothing else |
| OrderBook.UpdateMovesId | statev2/src/applicator/order_book.rs:254-267 | The id moves from the old set to the new one; the old set keeps its other ids in order; no other set changes |
| OrderBook.WriteRecordKeepsIndex | statev2/src/applicator/order_book.rs:211-214 | Writing an order's record where its id is already listed under its nullifier keeps the index valid and changes only that record |
| OrderBook.AddOrderIndexes | statev2/src/applicator/order_book.rs:125-140 | Adding keeps the index valid and stores the record under its key, with the id in its nullifier's set and no other. A fresh order on a fresh nullifier gets the set `[id]`, and other records are unchanged |
| OrderBook.AttachProofVerifies | statev2/src/applicator/order_book.rs:146-166 | An unknown order is a MissingEntry error. Otherwise the order becomes Verified with the proof, is re-indexed under the proof's nullifier, and the index stays valid; its record is the old one with only state, nullifier and proofs replaced, and every other order record is unchanged |
| OrderBook.CancelKeepsIndex | statev2/src/applicator/order_book.rs:169-182 | Cancelling succeeds exactly for a stored order, keeps the index and every set, and rewrites only that record |
| OrderBook.CancelAllCancels | statev2/src/applicator/order_book.rs:244-251 | Cancelling indexed orders succeeds, keeps the index valid, marks each Cancelled with proofs and witnesses cleared, and touches no other entry |
| OrderBook.NullifyCancelsSet | statev2/src/applicator/order_book.rs:244-251 | On a valid index, every order of the nullifier's set is cancelled and nothing else changes |
| OrderBook.DbTxn.constructor | statev2/src/applicator/order_book.rs:78 | A write transaction starts from the committed tables |
| OrderBook.StateApplicator.constructor | statev2/src/applicator/order_book.rs:360 | The applicator of the tests starts from an empty book, which satisfies the index invariant |
| OrderBook.StateApplicator.WriteOrderPriorityWithTx | statev2/src/applicator/order_book.rs:231-237 | Stores the order's priority with the cluster's priority; nothing else changes |
| OrderBook.StateApplicator.AppendToNullifierSetWithTx | statev2/src/applicator/order_book.rs:281-294 | The transaction's table becomes the appended table, or the error is returned; the priorities are untouched |
| OrderBook.StateApplicator.UpdateOrderNullifierWithTx | statev2/src/applicator/order_book.rs:254-267 | The transaction's table becomes the updated table, or the error is returned; the priorities are untouched |
| OrderBook.StateApplicator.AddOrderWithTx | statev2/src/applicator/order_book.rs:125-140 | The transaction's table becomes the table with the order added, or the error is returned |
| OrderBook.StateApplicator.AttachValidityProofWithTx | statev2/src/applicator/order_book.rs:146-166 | The transaction's table becomes the table with the proof attached, or the error is returned |
| OrderBook.StateApplicator.CancelOrderWithTx | statev2/src/applicator/order_book.rs:169-182 | Writes the cancelled record and publishes it on the bus at once, before commit; a failure changes nothing |
| OrderBook.StateApplicator.NullifyOrdersWithTx | statev2/src/applicator/order_book.rs:244-251 | Cancels the set's orders one by one, publishing each; the result is the nullify specification |
| OrderBook.StateApplicator.CancelEachWithTx | statev2/src/applicator/order_book.rs:244-251 | The cancellation loop stops at the first order that cannot be cancelled; on success the table and the published changes are those of cancelling every order in turn |
| OrderBook.StateApplicator.NewOrderWith | statev2/src/applicator/order_book.rs:76-88 | On a valid book, indexing succeeds and the index stays valid. The priority is written, the order indexed and `NewOrder` published |
| OrderBook.StateApplicator.AddOrderValidityProof | statev2/src/applicator/order_book.rs:91-106 | Succeeds exactly for a stored order, which becomes verified with the proof and is published; otherwise MissingEntry and no change |
| OrderBook.StateApplicator.NullifyOrdersWith | statev2/src/applicator/order_book.rs:109-114 | On a valid book, succeeds: the set's orders are cancelled and a state change is published for each |
| Wallets.Get | common/src/types/wallet.rs:264-266 | A key is found exactly when present, and the value returned is stored under it |
| Wallets.Values | common/src/types/wallet.rs:155-158 | One value per entry, in insertion order |
| Wallets.SerializeIndexMap | common/src/types/wallet.rs:128-137 | The entries as a vector of pairs, in the same order |
| Wallets.InsertGet | common/src/types/wallet.rs:140-148 | After an insertion the key reads the new value and every other key reads as before |
| Wallets.InsertAbsent | common/src/types/wallet.rs:140-148 | Inserting an absent key appends it at the end |
| Wallets.InsertKeys | common/src/types/wallet.rs:140-148 | The keys after an insertion are the old keys plus the inserted one |
| Wallets.InsertDistinct | common/src/types/wallet.rs:140-148 | Insertion keeps keys distinct |
| Wallets.CollectDistinct | common/src/types/wallet.rs:140-148 | Collecting any pairs gives distinct keys |
| Wallets.CollectGet | common/src/types/wallet.rs:140-148 | In a collected map, a key reads the value of its last pair |
| Wallets.CollectDistinctPairs | common/src/types/wallet.rs:140-148 | Collecting pairs with distinct keys keeps every pair, in order |
| Wallets.IndexMapSerdeRoundTrip | common/src/types/wallet.rs:128-148 | Deserialising a serialised map gives back the same entries in the same order |
| Wallets.RetainValues | common/src/types/wallet.rs:245-247 | Retaining entries filters their values |
| Wallets.RetainSubset | common/src/types/wallet.rs:245-247 | Every retained entry is an entry of the map that passes the test |
| Wallets.FilterMembers | common/src/types/wallet.rs:248 | Retaining keeps exactly the elements that pass |
| Wallets.FilterAppend | common/src/types/wallet.rs:248 | Retaining distributes over concatenation, so order is preserved |
| Wallets.FilterIdempotent | common/src/types/wallet.rs:248 | Retaining twice is retaining once |
| Wallets.FilterAllPass | common/src/types/wallet.rs:248 | A list whose elements all pass is kept whole |
| Wallets.FilterNonePass | common/src/types/wallet.rs:248 | A list none of whose elements pass is dropped |
| Wallets.ToCircuitWallet | common/src/types/wallet.rs:150-181 | Exactly MAX_BALANCES, MAX_ORDERS and MAX_FEES entries: the wallet's entries in insertion order, then defaults, with any excess dropped; keys and blinder carried over |
| Wallets.PaddingKeepsElements | common/src/types/wallet.rs:150-181 | When the elements fit, the padded list starts with them, and dropping the defaults gives back the non-default ones |
| Wallets.OrderMint | common/src/types/wallet.rs:257-260 | A buy spends the quote mint and a sell the base mint |
| Wallets.FirstNonDefaultFee | common/src/types/wallet.rs:267 | None exactly when every fee is default; otherwise a non-default fee of the list |
| Wallets.FirstNonDefaultFeeIsFirst | common/src/types/wallet.rs:267 | The fee found is at some position with every earlier fee default |
| Wallets.BalanceAndFeeForOrder | common/src/types/wallet.rs:255-274 | A result exactly when the spending balance exists, some fee is not default, and the gas balance exists and covers the fee's gas amount |
| Wallets.BalanceAndFeeMeaning | common/src/types/wallet.rs:255-274 | The balance is the one under the order's spending mint, the fee is the first non-default fee, and the gas balance covers its gas amount |
| Wallets.ReblindedPrivateShares | common/src/types/wallet.rs:203-216 | The share count n is kept: the n-1 shares chained from share n-2, then the second value chained from share n-1 |
| Wallets.Wallet.constructor | common/src/types/wallet.rs:65-104 | A wallet record whose every field takes the given value |
| Wallets.Wallet.Clone | common/src/types/wallet.rs:107-125 | A fresh wallet with every field equal, the current staleness counter included |
| Wallets.Wallet.CircuitWalletOf | common/src/types/wallet.rs:150-181 | The circuit wallet has the fixed sizes and carries the public keys and blinder |
| Wallets.Wallet.NeedsNewCommitmentProof | common/src/types/wallet.rs:240-242 | Always false |
| Wallets.Wallet.GetBalanceAndFeeForOrder | common/src/types/wallet.rs:255-274 | A result gives the balance of the spending mint, the first non-default fee, and the balance of its gas mint |
| Wallets.Wallet.RemoveDefaultElements | common/src/types/wallet.rs:245-249 | Balances, orders and fees keep exactly their non-default entries in order; every other field is unchanged |
| Wallets.Wallet.ReblindWallet | common/src/types/wallet.rs:203-227 | The blinder and the shares become those derived from the hash chains and share construction on the old wallet; every other field is unchanged |
| Wallets.RemoveDefaultsSpec | common/src/types/wallet.rs:245-249 | After removal no default element remains, every non-default element remains, and the survivors keep their order |
| Wallets.RemoveDefaultsIdempotent | common/src/types/wallet.rs:245-249 | Removing defaults twice is removing them once |
| Wallets.RemoveDefaultsKeepsFee | common/src/types/wallet.rs:245-274 | Removing defaults never changes the fee chosen for an order |
| Keychain.ToBytesLe | circuit-types/src/keychain.rs:151 | At least one byte, and no trailing zero byte unless the value is zero |
| Keychain.FixedLe | circuit-types/src/keychain.rs:181 | A fixed-width encoding has exactly the width asked for |
| Keychain.Chunks | circuit-types/src/keychain.rs:153 | The chunks are non-empty, at most 31 bytes, just enough of them, and concatenate back to the bytes |
| Keychain.ChunkWords | circuit-types/src/keychain.rs:153-164 | One word per chunk |
| Keychain.SplitWords | circuit-types/src/keychain.rs:149-175 | Exactly KEY_WORDS words |
| Keychain.WordBytes | circuit-types/src/keychain.rs:181 | Each word contributes exactly 31 bytes |
| Keychain.CombinedBytes | circuit-types/src/keychain.rs:178-186 | 31 bytes per word |
| Keychain.SplitBigUintIntoWords | circuit-types/src/keychain.rs:149-175 | The loop computes the split words |
| Keychain.CombineWordsIntoBigUint | circuit-types/src/keychain.rs:178-186 | The loop computes the combined value |
| Keychain.WordBelowOrder | circuit-types/src/keychain.rs:153-164 | 2^248 is below the scalar field order, so reducing a 31-byte word changes nothing |
| Keychain.CombinedChunks | circuit-types/src/keychain.rs:149-186 | The words of the chunks give back the bytes, zero-padded to whole words |
| Keychain.CombinedLeadingChunks | circuit-types/src/keychain.rs:149-186 | Whole leading chunks give back exactly their bytes |
| Keychain.SplitWordsFit | circuit-types/src/keychain.rs:149-175 | Splitting yields KEY_WORDS words, each below 2^248 |
| Keychain.CombineSplit | circuit-types/src/keychain.rs:149-186 | combine(split(v)) = v whenever v fits in 31 * KEY_WORDS bytes |
| Keychain.SplitLayout | circuit-types/src/keychain.rs:149-175 | The words of a value that fits: one per chunk, then zero words |
| Keychain.CombineSplitTruncates | circuit-types/src/keychain.rs:168-174 | A wider value keeps only its low 31 * KEY_WORDS bytes |
| Keychain.SplitZero | circuit-types/src/keychain.rs:139-175 | Zero splits into all-zero words |
| Keychain.PublicIdFromScalar | circuit-types/src/keychain.rs:70-74 | The key holds exactly the scalar |
| Keychain.SecretIdFromScalar | circuit-types/src/keychain.rs:108-112 | The key holds exactly the scalar |
| Keychain.IdentificationKeyConversions | circuit-types/src/keychain.rs:70-80 | Scalar to key and key to scalar are mutual inverses, for public and secret keys alike |
| Keychain.DefaultKey | circuit-types/src/keychain.rs:139-145 | KEY_WORDS words, all zero |
| Keychain.KeyFromBigUint | circuit-types/src/keychain.rs:189-195 | Always KEY_WORDS words |
| Keychain.KeySerdeRoundTrip | circuit-types/src/keychain.rs:203-221 | A key from a value that fits survives serde, converts back to the value, and zero gives the default key |
| Keychain.DalekFromBytes | circuit-types/src/keychain.rs:223-228 | Accepts exactly 32 bytes that decompress, keeping them as the key |
| Keychain.DalekKeyFits | circuit-types/src/keychain.rs:230-235 | A 32-byte key's value survives conversion to the two-word key |
| Keychain.PaddedToBytes | circuit-types/src/keychain.rs:223-228 | The minimal bytes of a value, zero-padded back to the original width, are the original bytes |
| Keychain.DalekRoundTripFails | circuit-types/src/keychain.rs:223-235 | As written, a valid key whose last byte is 0 cannot come back from its non-native key |
| Keychain.DalekRoundTripPadded | circuit-types/src/keychain.rs:223-235 | With the bytes padded to 32, every valid key comes back from its non-native key |
| Matches.MatchFields | circuits/src/types/match.rs:25-37 | The five cleartext fields, flattened in declaration order |
| Matches.MatchResultFromU64s | circuits/src/types/match.rs:39-59 | Succeeds exactly on five values; otherwise a serialisation error carrying the length |
| Matches.MatchResultFieldOrder | circuits/src/types/match.rs:51-57 | Five values are read into quote mint, base mint, quote amount, base amount and direction, in that order, and every result with `u64` mints is read back from its own fields |
| Matches.Flatten | circuits/src/types/match.rs:132-145 | Five values, in declaration order; the authenticated, committed (286-297) and variable forms share this one conversion |
| Matches.AuthenticatedFromValuesAsWritten | circuits/src/types/match.rs:148-170 | Succeeds exactly on five values; otherwise a serialisation error carrying the length |
| Matches.AuthenticatedRoundTripSwaps | circuits/src/types/match.rs:148-170 | As written, reading back a flattened result exchanges base mint and quote amount, so it differs whenever those differ |
| Matches.AuthenticatedRoundTripCounterexample | circuits/src/types/match.rs:162-168 | The result (1, 2, 3, 4, 0) reads back as (1, 3, 2, 4, 0) |
| Matches.AuthenticatedFromValues | circuits/src/types/match.rs:148-170 | Succeeds exactly on five values; otherwise a serialisation error carrying the length |
| Matches.AuthenticatedRoundTrip | circuits/src/types/match.rs:132-170 | With the corrected order, flattening and reading back are inverse both ways |
| Matches.Open | circuits/src/types/match.rs:173-204 | A failed batch opening is an opening error |
| Matches.OpenFieldwise | circuits/src/types/match.rs:177-189 | When the opening opens each value on its own, every opened field comes from the share of the same field |
| Matches.OpenWrongCount | circuits/src/types/match.rs:188 | An opening that returns the wrong number of values is a serialisation error with that count |
| Matches.Commit | circuits/src/types/match.rs:214-250 | Fails exactly when the batch commitment does, with its error; on success the i-th variable and commitment become the i-th field |
| CircuitTypeMacro.Validate | circuit-macros/src/circuit_type.rs:83-115 | No message exactly for a valid flag combination; otherwise one of the four assertion messages |
| CircuitTypeMacro.SetFlag | circuit-macros/src/circuit_type.rs:124-134 | A name sets a flag exactly when it is one of the seven known arguments |
| CircuitTypeMacro.ParseMacroArgs | circuit-macros/src/circuit_type.rs:119-139 | The loop sets a flag per argument, fails on the first unknown one, then validates, as the specification says |
| CircuitTypeMacro.ParseFlagsStops | circuit-macros/src/circuit_type.rs:124-135 | An unknown name after known ones fails the parse with that name |
| CircuitTypeMacro.ParseFlagsExact | circuit-macros/src/circuit_type.rs:124-135 | The parse succeeds exactly when every name is known, and then sets exactly the flags named |
| CircuitTypeMacro.SetFlagNamed | circuit-macros/src/circuit_type.rs:124-134 | Setting the flag of one more known name gives the flags of the longer list |
| CircuitTypeMacro.ParseMacroArgsSound | circuit-macros/src/circuit_type.rs:119-139 | Arguments are accepted exactly when all are known and name a valid combination, and then exactly the named flags are set |
| CircuitTypeMacro.WithPrefix | circuit-macros/src/circuit_type.rs:244-246 | The result is the prefix followed by the identifier |
| CircuitTypeMacro.WithSuffix | circuit-macros/src/circuit_type.rs:255-257 | The result is the identifier followed by the suffix |
| CircuitTypeMacro.StripPrefix | circuit-macros/src/circuit_type.rs:249-252 | A present prefix is removed, so prefix plus result is the original; an absent one leaves the identifier unchanged |
| CircuitTypeMacro.StripSuffix | circuit-macros/src/circuit_type.rs:260-263 | A present suffix is removed, so result plus suffix is the original; an absent one leaves the identifier unchanged |
| CircuitTypeMacro.StripPrefixInverse | circuit-macros/src/circuit_type.rs:244-252 | Stripping an added prefix gives the identifier back |
| CircuitTypeMacro.StripSuffixInverse | circuit-macros/src/circuit_type.rs:255-263 | Stripping an added suffix gives the identifier back |
| CircuitTypeMacro.ParamNames | circuit-macros/src/circuit_type.rs:282-293 | Fails exactly when some parameter is a lifetime; otherwise the parameter names, one per parameter, in order |
| CircuitTypeMacro.ParamsFromGenerics | circuit-macros/src/circuit_type.rs:282-293 | The loop computes the parameter names or the lifetime failure |
| CircuitTypeMacro.ParamNamesStops | circuit-macros/src/circuit_type.rs:282-293 | A lifetime anywhere in the list makes the whole call fail |
| CircuitTypeMacro.UnnamedAppend | circuit-macros/src/circuit_type.rs:298-306 | The name filter distributes over concatenation, so it keeps order and multiplicity |
| CircuitTypeMacro.UnnamedMembers | circuit-macros/src/circuit_type.rs:298-306 | A parameter survives exactly when it is a lifetime or its name is not filtered out |
| CircuitTypeMacro.MergeGenerics | circuit-macros/src/circuit_type.rs:296-322 | Fails exactly when the first set has a lifetime; the where clauses are the first's then the second's |
| CircuitTypeMacro.MergeGenericsParams | circuit-macros/src/circuit_type.rs:296-322 | The merged parameters are the first set's followed by the second set filtered by the first (so in the second's order, with its multiplicity); a second-set parameter is added exactly when it is a lifetime or its name is not in the first |
| CircuitTypeMacro.FilterGenerics | circuit-macros/src/circuit_type.rs:325-342 | Fails exactly when the filter has a lifetime; the where clause is the base's |
| CircuitTypeMacro.FilterGenericsParams | circuit-macros/src/circuit_type.rs:325-342 | Exactly the base parameters that are lifetimes or not named in the filter remain |
| CircuitTypeMacro.FilterGenericsOrder | circuit-macros/src/circuit_type.rs:325-342 | The filter of a concatenation is the concatenation of the filters, and one parameter is kept alone exactly when it is a lifetime or unnamed by the filter: the base's order and multiplicity are kept |
| CircuitTypeMacro.SerializeStmts | circuit-macros/src/circuit_type.rs:348-370 | One `extend` per field, in declaration order |
| CircuitTypeMacro.BuildSerializeMethod | circuit-macros/src/circuit_type.rs:348-370 | The loop emits the statements of the specification |
| CircuitTypeMacro.DeserializeInits | circuit-macros/src/circuit_type.rs:376-407 | Fails exactly on an unnamed field; otherwise one initialiser per field, in declaration order |
| CircuitTypeMacro.BuildDeserializeMethod | circuit-macros/src/circuit_type.rs:376-407 | The loop emits the initialisers of the specification |
| CircuitTypeMacro.SerdeFieldOrder | circuit-macros/src/circuit_type.rs:348-407 | from_scalars(to_scalars(x)) = x: each field reads back exactly its own scalars, whatever follows in the iterator |
| Poseidon.OrderElements | src/circuits/poseidon.rs:57-63 | A successful conversion gives five elements |
| Poseidon.BalanceElements | src/circuits/poseidon.rs:92-96 | A successful conversion gives two elements |
| Poseidon.MatchElements | src/circuits/poseidon.rs:135-140 | A successful conversion gives three elements |
| Poseidon.SectionsAppend | src/circuits/poseidon.rs:129-141 | Collecting a concatenation gives the first part's sections then the second's, with the first part's error winning |
| Poseidon.SectionsLayout | src/circuits/poseidon.rs:51-69 | Collection succeeds exactly when every item converts, and then item `i` occupies positions `k*i` to `k*i+k` |
| Poseidon.PushSections | src/circuits/poseidon.rs:51-69 | The pushing loop gives the collected sections after the existing elements, or the first error |
| Poseidon.OrderHashInput | src/circuits/poseidon.rs:51-69 | The loop builds the order input of the specification |
| Poseidon.WalletHashInput | src/circuits/poseidon.rs:84-115 | The loop builds the wallet input of the specification |
| Poseidon.MatchHashInput | src/circuits/poseidon.rs:129-146 | The loop builds the match input of the specification |
| Poseidon.OrderHashLayout | src/circuits/poseidon.rs:51-68 | Five elements per order (base mint, quote mint, side, price, amount), and an error exactly when some conversion fails |
| Poseidon.WalletHashLayout | src/circuits/poseidon.rs:84-114 | Every balance as (amount, mint), then exactly the order input of the same wallet: 2B + 5O elements |
| Poseidon.MatchHashLayout | src/circuits/poseidon.rs:129-145 | The first list's sections then the second's, three elements (amount, mint, side) per match |
| Poseidon.DefaultParams | src/circuits/poseidon.rs:163-174 | 8 full rounds, split 4 before and 4 after, 56 partial rounds and alpha 5, with the given tables |
| Poseidon.PoseidonSponge.constructor | src/circuits/poseidon.rs:155-161 | A fresh sponge with the default parameters and nothing absorbed |
| Poseidon.PoseidonSponge.Absorb | src/circuits/poseidon.rs:191 | The element is appended to what was absorbed |
| Poseidon.PoseidonSponge.SqueezeOne | src/circuits/poseidon.rs:195 | The squeeze of the absorbed elements |
| Poseidon.HashOf | src/circuits/poseidon.rs:185-199 | Succeeds exactly when the squeeze succeeds with at least one element |
| Poseidon.Evaluate | src/circuits/poseidon.rs:185-199 | Absorbs the input in order and returns the hash of the specification |
| Merkle.HashInternalNodes | circuits/src/zk_gadgets/merkle.rs:77-87 | The sponge over exactly the two children, the left one first |
| Merkle.RootFoldSnoc | circuits/src/zk_gadgets/merkle.rs:26-42 | One more sister node hashes the previous root, as the left child, with it |
| Merkle.RootOfShortOpenings | circuits/src/zk_gadgets/merkle.rs:26-42 | An empty opening makes the leaf hash the root; a one-node opening hashes the leaf hash with that node |
| Merkle.ComputeRoot | circuits/src/zk_gadgets/merkle.rs:26-42 | The loop computes the left fold of internal hashes over the opening, starting from the leaf hash |
| Merkle.RootFoldStops | circuits/src/zk_gadgets/merkle.rs:36-39 | A failure part-way up the path is the failure of the whole computation |
| Merkle.ConstraintSystem.constructor | circuits/src/zk_gadgets/merkle.rs:45-59 | A constraint system starts with no constraints |
| Merkle.ConstraintSystem.Constrain | circuits/src/zk_gadgets/merkle.rs:56 | Adds exactly the given constraint |
| Merkle.ComputeAndConstrainRoot | circuits/src/zk_gadgets/merkle.rs:45-59 | Adds exactly the constraint expected root minus computed root = 0; on a hashing failure it adds nothing and returns the error |
| Merkle.CommitAll | circuits/src/zk_gadgets/merkle.rs:127-138 | One commitment and one variable per value, each from that value and its blinder |
| Merkle.ProverCommitments | circuits/src/zk_gadgets/merkle.rs:155-160 | The opening's commitments then the leaf's, as many as the opening and the leaf together hold |
| Merkle.VerifierSplit | circuits/src/zk_gadgets/merkle.rs:171-178 | Succeeds exactly when `tree_height` is at least 1 and at most one more than the number of commitments; the first `tree_height - 1` commitments are the opening and the rest the leaf |
| Merkle.LayoutAgreement | circuits/src/zk_gadgets/merkle.rs:254-275 | The verifier reads back the prover's opening and leaf commitments exactly when the opening has `tree_height - 1` nodes |
| DarkpoolConstants.ChainName | darkpool-client/src/constants.rs:22-30 | A chain's name is lower-case letters |
| DarkpoolConstants.LowerChar | darkpool-client/src/constants.rs:36 | Upper-case ASCII letters become lower-case; everything else is unchanged |
| DarkpoolConstants.ToLower | darkpool-client/src/constants.rs:36 | Lower-cases each character, keeping the length |
| DarkpoolConstants.ParseChain | darkpool-client/src/constants.rs:32-43 | An error names the input as given |
| DarkpoolConstants.ChainNameRoundTrip | darkpool-client/src/constants.rs:22-43 | Every chain parses back from its name |
| DarkpoolConstants.ParseChainAccepts | darkpool-client/src/constants.rs:32-43 | Parsing succeeds exactly on chain names in any letter case, giving the chain whose name is the lower-cased input |
| DarkpoolConstants.EmptyPath | darkpool-client/src/constants.rs:74-84 | `height` entries, entry `i` the root of an empty subtree of height `i` |
| DarkpoolConstants.DefaultAuthenticationPath | darkpool-client/src/constants.rs:74-84 | The loop builds the empty-tree path: MERKLE_HEIGHT entries |
| DarkpoolConstants.DefaultPathRecursive | darkpool-client/src/constants.rs:77-81 | Entry 0 is the empty leaf and entry `i+1` is entry `i` hashed with itself |
| DarkpoolConstants.DefaultPathOpensEmptyTree | darkpool-client/src/constants.rs:69-84 | Folding the path up from the empty leaf, as the Merkle gadget does, gives the root of the empty tree |
| StarknetClient.PathAsWritten | starknet-client/src/lib.rs:80-89 | `height` entries, each the empty leaf hashed with itself |
| StarknetClient.DefaultAuthenticationPathAsWritten | starknet-client/src/lib.rs:80-89 | The loop as written, which never updates `curr_val`, builds that path |
| StarknetClient.RecursivePath | starknet-client/src/lib.rs:75-89 | `height` entries, entry `i` the root of an empty subtree of height `i+1` |
| StarknetClient.DefaultAuthenticationPath | starknet-client/src/lib.rs:75-89 | The corrected loop builds the documented recursive path |
| StarknetClient.RecursivePathIsRecursive | starknet-client/src/lib.rs:75-86 | Entry 0 is the empty leaf hashed with itself and entry `i+1` is entry `i` hashed with itself |
| StarknetClient.AsWrittenMatchesOnlyAtFixedPoint | starknet-client/src/lib.rs:83-86 | With two or more levels, the written path is the documented one exactly when its first entry is a fixed point of hashing with itself |
| StarknetClient.AsWrittenCounterexample | starknet-client/src/lib.rs:83-86 | With leaf 0, a hash adding one to its first input and two levels, the written path is [1, 1] and the documented one [1, 2] |

## Left out

- Clock reads (`get_current_time_seconds`), randomness (fresh task ids, blinders), network channels and locks are parameters or sequential steps. Races between a read lock and the following write lock are not modelled.
- The raft proposal transport is not modelled. A task-queue proposal is applied to the state as soon as it is sent, in order. The effects of AppendTask, PopTask and TransitionTask follow the applicator tests in `state/src/interface/task_queue.rs` (lines 276-435). The applicator itself is not part of this model.
- `TaskQueue.Apply`: its PreemptTaskQueues, ResumeTaskQueues, ClearTaskQueue and ReassignTasks cases are modelling choices and no test covers them. PreemptTaskQueues pushes the preemptive task to the front and pauses the queues, following the doc comments at lines 200 and 210-211. ResumeTaskQueues unpauses and pops a Preemptive front task into the history. ClearTaskQueue empties the queue and keeps its history. ReassignTasks rewrites the executor of every task run by the failed peer.
- `TaskQueue.ContainsTask` scans the live queues for the id. The source asks the task-to-queue-key index (`get_task_queue_key(..).is_some()`), which this model does not keep apart from the queues.
- The getters `is_queue_paused`, `get_queued_tasks`, `get_task_queue_key`, `get_task`, `get_task_status` and `append_wallet_refresh_task` are not modelled. They are plain reads of the same state or wrappers around `append_task`.
- `TaskQueue.GetTaskHistory` and the other getters read a committed state value. The database read errors of the source are not modelled.
- `HashMap` iteration order is a parameter (the `order` argument of `MergePeerIndex`), and so is the parsing of peer ids from strings.
- The LRU expiry cache is modelled by its content and recency order with capacity `EXPIRY_CACHE_SIZE`, not by the crate's linked hash map.
- `merge_cluster_metadata`, the heartbeat of cluster peers and the handshake with new peers are not part of this model.
- The infinite `execution_loop` is modelled as a run over a finite series of peer-index snapshots. Sleeping is recorded as a list of durations.
- `HeartbeatTimer.TimerLoop.Pass`: requires a normalised wait period, which `Duration::new` always gives.
- `HeartbeatTimer.ExecutionLoop`: also requires every snapshot to hold between 1 and 2^32 - 1 peers. An empty index divides by zero in the source, and a larger one truncates in the `u32` cast.
- `Heartbeat.GossipNode.MaybeExpirePeer`: requires the peer to be known and its heartbeat not to lie in the future. The source's `unwrap` and `u64` subtraction panic otherwise, and those panics are not modelled.
- `Heartbeat.GossipNode.SendHeartbeat`: inherits the same precondition for a non-local recipient. A failed channel send is not modelled.
- `Heartbeat.GossipNode.AddNewPeer`: requires every recorded expiry to lie at or before `now`, for the same `u64` subtraction.
- `Heartbeat.GossipNode.MergePeerIndex`: requires the incoming keys to be the canonical renderings of the ids they parse to, as `to_string` of a peer id is.
- `Heartbeat.GossipNode.MaybeExpirePeer`: `remove_peers` of the global state is not part of this model. It is modelled as removal from the known-peer index alone, so whether wallet replica sets are pruned as well is not captured: the contract keeps `managedWallets` unchanged.
- `OrderBook.OrderKey`: order identifiers are natural numbers rendered in decimal, while the source formats a UUID into `order:{id}`. Only the injectivity and the prefix of the rendering are relied on.
- `OrderBook.StateApplicator.WriteOrderPriorityWithTx`: the priorities table is held as two maps, one keyed by cluster id and one by order id. The source keeps both kinds of entry in one `PRIORITIES_TABLE`; the keys of the two kinds are assumed not to collide.
- `Poseidon.PoseidonSponge.Absorb` cannot fail. The source's `absorb(..)?` can, and in this model its error is reachable only through the squeeze parameter.
- `OrderBook.EffectivePriority`: requires the product of the two priorities to fit in `u32`. The overflow of the source's multiplication is not modelled.
- `Wallets.ReblindedPrivateShares`: requires at least two private shares and hash chains of the requested length. With fewer shares the source's index underflows and panics.
- `Wallets.Wallet.ReblindWallet`: has the same precondition as `Wallets.ReblindedPrivateShares`.
- `Matches.Commit`: requires the batch commitment to return one commitment and one variable per value, which the source assumes when it indexes them.
- The wording of the serialisation error ("Expected 12 ...") is not modelled. The error carries the number of values received.
- The hash functions (Poseidon), the Pedersen and bulletproof commitments, `evaluate_hash_chain`, `create_wallet_shares_from_private`, the proof system and `CommitVerifier` are parameters. So are `get_*_commitment` and the nullifier computations.
- The Poseidon permutation and its MDS and round-constant tables are parameters. The constraints the sponge gadget adds are not recorded.
- The `u64` and `u8` to field-element conversions of the Poseidon inputs are parameters. Scalar field arithmetic is modelled only as far as the byte widths the keychain needs.
- `WalletSizes` (MAX_BALANCES, MAX_ORDERS, MAX_FEES), `MERKLE_HEIGHT`, `EMPTY_LEAF_VALUE` and `KEY_WORDS` are parameters.
- `is_default` of balances, orders and fees is modelled as equality with the derived default.
- The hex rendering in the key serialisation and the identification-key serde are not modelled. Only the big-integer round trip is.
- The token parsing of `syn` (the `parse_terminated` error, identifiers and generics) and the generated token streams of the macro are modelled as lists of names and statements. `circuit_type/mpc_types.rs` is not part of this model.
- `DarkpoolConstants.ToLower`: `to_lowercase` is modelled on ASCII letters only.

## Findings

| source | as written | input that shows it | evidently intended | confidence | as-written member | corrected member |
|---|---|---|---|---|---|---|
| circuit-types/src/keychain.rs:223-228 | `to_bytes_le` drops trailing zero bytes, so `from_bytes` gets fewer than 32 bytes and `unwrap` panics | a valid public key whose last byte is 0, such as the compressed identity point `01 00 .. 00` | pad the bytes to 32 before `from_bytes`, so every valid key round-trips | not executed | Keychain.DalekRoundTripFails | Keychain.DalekRoundTripPadded |
| circuits/src/types/match.rs:162-168 | `TryFrom` reads index 1 into `quote_amount` and index 2 into `base_mint`, while `From` writes base mint at 1 and quote amount at 2 | the result (1, 2, 3, 4, 0) reads back as (1, 3, 2, 4, 0) | read the values in the order `From` writes them, so the conversions are inverse | not executed | Matches.AuthenticatedRoundTripCounterexample | Matches.AuthenticatedRoundTrip |
| starknet-client/src/lib.rs:83-86 | `curr_val` is never updated, so every entry is `H(leaf, leaf)` | leaf 0, hash `s[0] + 1`, height 2: the path is [1, 1] instead of [1, 2] | recursive hashes: entry `i+1` is entry `i` hashed with itself | not executed | StarknetClient.AsWrittenCounterexample | StarknetClient.RecursivePathIsRecursive |
