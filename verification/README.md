# CEELL middleware: a verified model

CEELL is middleware for vehicle control units. Nodes announce themselves on a network, watch
each other's health, call each other's services and update their firmware. Its logic is a
set of bounded tables, rings, queues and sequence numbers shared by a few threads. This
project models that logic in Dafny and proves what it is for.

| file | what it models |
|---|---|
| `Common.dfy` | 32-bit casts, bounded string copies |
| `SafeState.dfy` | the safe-state manager and the health callback that drives it |
| `Discovery.dfy` | the peer table: announcements, snapshot, swap-with-last expiry |
| `HealthMonitor.dfy` | the never-shrinking health table and its transition log |
| `Liveness.dfy` | one node's whole liveness pipeline, over runs of its critical sections |
| `SafeRuns.dfy` | the safe state over runs at the grain of single callbacks |
| `Messaging.dfy` | request/response messaging of one node as a small-step system |
| `MessagingRuns.dfy` | several nodes over a network that loses, duplicates and reorders |
| `MessagingWrap.dfy` | how many sends the correlation by sequence number survives |
| `MessagingProgress.dfy` | what must come of a request, a response, a send and a full queue |
| `MessagingNode.dfy` | the static variables of the messaging code, proved against that system |
| `DedupRing.dfy` | the 32-slot deduplication ring and exactly-once delivery over two paths |
| `Services.dfy` | service names: configured, registered, printed, announced, looked up |
| `OtaVersion.dfy` | the version codec |
| `OtaClient.dfy` | the update cycle, from fragments to the guarded reboot |
| `Timing.dfy` | the timing ring and its statistics |

Code that changes state in place is a class whose methods are proved equal to functions on
values; the theorems over whole runs are lemmas about those functions. `dafny verify
dfyconfig.toml` checks everything.

## Assumptions

- One clock per node. A time read by the lifecycle thread may be older than entries made
  meanwhile, never newer than anything that happens after it. An update follows an expiry
  within 2^31 announcement intervals (`HealthMonitor.ComputeRightIff` says what happens
  beyond), and 64-bit times do not overflow.
- MAX_PEERS, interval, timeout, queue depth, ring slots, clock frequency and ULONG_MAX are
  parameters. Interval and timeout are positive C ints; nothing else is asked of them except
  where a statement names it.
- At most one sender per priority at a time, since a priority has a single response slot.
  Different priorities interleave freely.
- Encoding and sending a message is one atomic step, since the buffers are shared.
- Decoding is a pure function of the datagram: it yields a request, a response or neither.
- A service handler leaves a terminated text in its 128-byte buffer. What it answers is any
  relation between payload, status and text, one per service and node. A service registered
  after messaging has started (main registers "ota" then) may or may not be found.
- The C conversion of a large number to int keeps its low 32 bits, and an overflowing int
  subtraction, which C leaves undefined, is taken to wrap. That matters only in
  `HealthMonitor.Missed` after 2^31 announcement intervals.

## Where code and documentation disagree

The model follows the code.

- `docs/requirements.md` (REQ-OTA-001) has ERROR reachable from any active state. The code
  goes from CHECKING back to IDLE on every failed check (`OtaClient.FailedCheckIsIdle`), and
  ERROR is entered from DOWNLOADING, VALIDATING and MARKING, each of them, and from no other
  state (`OtaClient.ErrorReachedExactlyFrom`).
- `docs/requirements.md` (REQ-MSG-003) wants monotonically increasing sequence numbers to
  match responses by. They increase for fewer than 2^32 sends and no more
  (`Messaging.NumbersGoUpExactly`), and the matching is right for 2^32 sends and no more
  (`MessagingWrap.CorrectExactly`).
- `ceell/core/health_monitor.h` has LOST for a silence that exceeds the timeout. The code
  says LOST at the timeout exactly, while discovery keeps such an entry, for that one
  millisecond (`HealthMonitor.LostYetKeptIff`).
- "A LOST peer means safe state" is not what the code does with two or more peers: any
  recovery from LOST clears it. `SafeRuns.LostNotSafeExactly` gives the exact condition and
  `Liveness.SafeOffReachableExactly` the runs.
- `ceell/network/msg_redundancy.h` says that seen numbers are discarded. The ring forgets a
  number after 32 others; `DedupRing.ExactlyOnceIffRecalled` says when that matters, and
  `DedupRing.SpanExactly` that two paths with losses can afford a skew of 15.

## Model

| member | source | states |
|---|---|---|
| `Liveness.TablesAgreeWithLastHeard` | ceell/core/health_monitor.c:106-195 | over every run with at most MAX_PEERS foreign ids heard and timeout + 1 >= 4 * interval, the state read after an update is the classification of the time since the node was last heard, and LOST if never heard, whether it is in discovery, expired, or never had a slot |
| `Liveness.AgreementExactly` | ceell/network/discovery.c:270-300 | the agreement holds on all runs with up to n nodes if and only if n <= MAX_PEERS and timeout + 1 >= 4 * interval |
| `Liveness.ShortTimeoutDisagrees` | ceell/network/discovery.c:280-287 | for every shorter timeout a run in which a DEGRADED peer is already expired and reads LOST |
| `Liveness.OneNodeTooMany` | ceell/network/discovery.c:74-97 | for every table size a run in which one node more than fits has just announced itself and reads LOST |
| `Liveness.ReadingAfterUpdate` | ceell/core/health_monitor.c:204-220 | with no bound on the nodes: the reading is the classification for a node tracked in both tables and LOST for all others |
| `Liveness.ReadingRightIff` | ceell/core/health_monitor.c:204-220 | with no bound on the nodes: the reading is right exactly for nodes tracked in both tables or due to read LOST anyway |
| `Liveness.RunOk` | ceell/core/lifecycle.c:34-40 | in every reachable state: distinct foreign ids within capacity in the peer table, distinct ids in the health table, the callback log replaying to the table and to the safe state, every entry carrying the time its node was last heard |
| `Liveness.RunAbsentStale` | ceell/network/discovery.c:270-300 | with at most MAX_PEERS nodes ever heard, a heard node missing from the peer table had been silent longer than the timeout at the last expiry |
| `Liveness.RunSlotsPersist` | ceell/core/health_monitor.c:40-61 | once active, a health slot keeps its id in every continuation of every run |
| `Liveness.StarvedForever` | ceell/core/health_monitor.c:40-61 | slots are never freed: a node without one when all are taken reads LOST in every continuation, however often it announces itself |
| `SafeRuns.LostPeerYetNotSafe` | src/main.c:30-43 | in every reachable state, also between two callbacks of one update and with triggers from other threads anywhere, a tracked peer LOST with the safe state off means another peer went LOST to HEALTHY after its latest move to LOST |
| `SafeRuns.LostNotSafeExactly` | src/main.c:30-43 | in every such state with a tracked peer LOST, the safe state is off if and only if a recovery was reported and nothing has raised it since |
| `SafeRuns.OnlyPeerLostIsSafe` | src/main.c:30-43 | with a single tracked peer, LOST implies the safe state is active, wherever external triggers fall |
| `SafeRuns.RunOk` | ceell/core/health_monitor.c:129-192 | at every callback of every update the log chains and replays to the health table and to the safe state |
| `SafeRuns.UpdateUndisturbed` | ceell/core/health_monitor.c:106-195 | the health table an update leaves is determined by the table, the snapshot and the time it began with, whatever other threads do before it ends |
| `SafeRuns.EventsAreSteps` | ceell/core/health_monitor.c:106-195 | every run in which an update is one event is a run of its single turns, with the same tables, log and safe state |
| `Liveness.SafeOffReachableExactly` | src/main.c:38-40 | a run of announcements, expiries and updates reaches a tracked LOST peer with the safe state off if and only if there is room for two peers |
| `Liveness.OneLostOneBack` | src/main.c:38-40 | that run, for every such configuration: two peers fall silent and one comes back |
| `Liveness.Node.constructor` | src/main.c:100-126 | start-up leaves both tables empty, the callback registered and the safe state inactive |
| `Liveness.Node.Announced` | ceell/network/discovery.c:46-98 | an announcement is the Announce step of the run model |
| `Liveness.Node.Tick` | ceell/core/lifecycle.c:37-40 | a tick is the Expire step, then the Update step, each with its own clock reading, in that order |
| `Discovery.ExpireKeepsFresh` | ceell/network/discovery.c:279-292 | swap-with-last expiry keeps exactly the entries with now - last_seen <= timeout, as a multiset |
| `Discovery.ExpireMembership` | ceell/network/discovery.c:279-292 | an entry survives expiry if and only if it was present and not stale |
| `Discovery.ExpireKeepsTable` | ceell/network/discovery.c:279-292 | expiry keeps ids distinct, foreign and within capacity |
| `Discovery.AnnounceKeepsTable` | ceell/network/discovery.c:46-98 | so does an announcement, whatever it carries |
| `Discovery.AnnounceEffect` | ceell/network/discovery.c:46-98 | what an announcement does to every entry: own ids and newcomers to a full table are ignored; a known entry gets the time and new services and keeps the rest; a new one holds up to 31, 63, 15 and 127 characters of role, name, address and services; no other entry is touched |
| `Discovery.PeerTable.UpdatePeer` | ceell/network/discovery.c:46-98 | own announcements are ignored; a known node has its time refreshed and its services replaced when given; a new one is appended if there is room; nothing else changes |
| `Discovery.PeerTable.GetPeers` | ceell/network/discovery.c:259-268 | the snapshot is the beginning of the table that fits the buffer |
| `Discovery.PeerTable.ExpirePeers` | ceell/network/discovery.c:270-300 | terminates, keeps exactly the fresh entries as a multiset and returns how many went |
| `HealthMonitor.ComputeIsClassify` | ceell/core/health_monitor.c:66-86 | below 2^31 missed intervals the state is HEALTHY, DEGRADED, CRITICAL or LOST by the thresholds interval, 4 * interval and timeout |
| `HealthMonitor.ComputeRightIff` | ceell/core/health_monitor.c:66-86 | with no bound: it is that classification if and only if fewer than 2^31 intervals have passed or their number modulo 2^32 is 4 to 2^31 (with an overflowing subtraction taken to wrap) |
| `HealthMonitor.NarrowingMisclassifies` | ceell/core/health_monitor.c:75-79 | for every interval and timeout, a silence of 2^31 + 1 intervals, where all arithmetic is defined: DEGRADED instead of LOST |
| `HealthMonitor.LostYetKeptIff` | ceell/network/discovery.c:280-280 | a peer reads LOST while expiry still keeps it if and only if its silence is exactly the timeout and the timeout is at least 4 intervals |
| `HealthMonitor.AllocatedOk` | ceell/core/health_monitor.c:40-61 | allocation keeps active ids distinct and moves no slot; it fails only when every slot holds another id |
| `HealthMonitor.UpdateKeepsMonitor` | ceell/core/health_monitor.c:106-195 | whatever the snapshot and time, an update keeps ids distinct, keeps slots with their nodes, keeps missed counts that fit the states, and leaves a log that chains per node and replays to the table and to the safe state |
| `HealthMonitor.StoreSlotOk` | ceell/core/health_monitor.c:142-172 | storing one slot and reporting the change, if any, keeps all of that |
| `HealthMonitor.UpdateStates` | ceell/core/health_monitor.c:106-195 | after an update a node reads as its computed state when it is in the snapshot and has a slot, and LOST otherwise |
| `HealthMonitor.UpdateRecords` | ceell/core/health_monitor.c:145-146 | after an update the slot of every node in the snapshot records when that node was last heard |
| `HealthMonitor.ObservedRecords` | ceell/core/health_monitor.c:148-162 | on a change of state the missed count is the number of whole intervals gone by after the first; it always fits the state, and stays when the state does |
| `HealthMonitor.ReportsOnlyWhenWired` | ceell/core/health_monitor.c:168-170 | without a callback an update reports nothing; without a safe-state manager it does not touch the safe state |
| `HealthMonitor.DropFirstStates` | ceell/core/health_monitor.c:174-192 | the second loop makes exactly the active unmarked slots LOST |
| `HealthMonitor.TrackHasEffect` | ceell/core/health_monitor.c:130-172 | tracking a peer writes its own slot only, with its computed state, or nothing when there is no room |
| `HealthMonitor.RoomForSlot` | ceell/core/health_monitor.c:40-61 | allocation cannot fail for a node among at most MAX_PEERS known ones |
| `HealthMonitor.UpdateSlots` | ceell/core/health_monitor.c:130-140 | with at most MAX_PEERS known nodes, every node of the snapshot has a slot after the update |
| `HealthMonitor.HealthTable.constructor` | ceell/core/health_monitor.c:88-104 | starts with every slot free and no callback |
| `HealthMonitor.HealthTable.FindOrAlloc` | ceell/core/health_monitor.c:40-61 | the active slot of the node, else the first free one freshly initialised, else -1 |
| `HealthMonitor.HealthTable.RegisterCallback` | ceell/core/health_monitor.c:197-202 | registers or removes the callback and touches nothing else of the monitor |
| `HealthMonitor.HealthTable.Report` | ceell/core/health_monitor.c:165-171 | the callback drives the safe state with the node and both states, once, when registered |
| `HealthMonitor.HealthTable.Refresh` | ceell/core/health_monitor.c:130-172 | one turn of the first loop, on the table, the marks and the safe state |
| `HealthMonitor.HealthTable.Expire` | ceell/core/health_monitor.c:174-192 | one turn of the second loop |
| `HealthMonitor.HealthTable.Update` | ceell/core/health_monitor.c:106-195 | the whole update equals the specification the run theorems are about |
| `HealthMonitor.HealthTable.GetState` | ceell/core/health_monitor.c:204-220 | the state of the first active slot of the node, LOST for an unknown node |
| `SafeState.ActiveIff` | ceell/core/safe_state.c:53-108 | after any history the safe state is active if and only if some raise has not been cleared since |
| `SafeState.ReasonIsLatestRaise` | ceell/core/safe_state.c:53-84 | the reason reported is that of the most recent raise |
| `SafeState.NoticesAlternate` | ceell/core/safe_state.c:53-108 | callback notices alternate, enter first, and the last one tells the current state |
| `SafeState.NoticesTell` | ceell/core/safe_state.c:53-108 | entering is told with the reason of the raise, which is 1 for a lost peer, leaving with 0, and nothing else is told; the reason afterwards is that of the raise |
| `SafeState.LostYetClear` | src/main.c:30-43 | for any history: a node LOST with the safe state off means another node recovered after its latest loss |
| `SafeState.LostNotSafeIff` | src/main.c:30-43 | the exact condition: a standing clear, with no raise after it |
| `SafeState.LastClear` | src/main.c:38-40 | when no raise stands, some clear after any given raise is the last word |
| `SafeState.LatestLoss` | src/main.c:35-36 | a node last reported LOST has a latest report, the move to LOST |
| `SafeState.SingleNodeLostIsSafe` | src/main.c:30-43 | with reports about one node only, LOST implies active |
| `SafeState.TwoNodesLostNotSafe` | src/main.c:38-40 | with two nodes it does not: a concrete history |
| `SafeState.SafeStateManager.constructor` | ceell/core/safe_state.c:35-51 | starts inactive, without reason |
| `SafeState.SafeStateManager.TriggerSafe` | ceell/core/safe_state.c:53-84 | first trigger enters and notifies; a later one only updates the reason; nothing before initialisation |
| `SafeState.SafeStateManager.Clear` | ceell/core/safe_state.c:86-108 | clears and notifies when active, else nothing |
| `SafeState.SafeStateManager.OnHealthChange` | src/main.c:30-43 | any move to LOST triggers; a move LOST to HEALTHY clears; all others leave the safe state alone |
| `MessagingRuns.SuccessEndToEnd` | ceell/network/messaging.c:429-529 | among honest nodes over a network that loses, duplicates and reorders, with at most 2^32 sends: a successful send returns the answer the addressed node gave, in a step of the run, to the very request that send issued; that is queue full if the queue was full, deadline expired if the handler thread came to it past its deadline, else what a handler registered under the name the caller gave (up to 31 characters) makes of the payload the caller gave (up to 127), or unknown service where none is registered |
| `MessagingWrap.CorrectExactly` | ceell/network/messaging.c:461-467 | between two or more nodes, every success in every run with up to n sends is an answer to that send if and only if n <= 2^32 |
| `MessagingWrap.OneSendTooMany` | ceell/network/messaging.c:461-467 | the run with one send more: the number recurs and a late answer to the first send is taken for one to the last |
| `MessagingRuns.AnswerWasGiven` | ceell/network/messaging.c:172-217 | every answer on record was given in a step of the run: the handler thread with the item in hand, or a request that found the queue full |
| `MessagingRuns.RunStaysOk` | ceell/network/messaging.c:251-329 | in every reachable state every datagram, queued item, answer and outcome has its proper origin |
| `MessagingRuns.ResponseTracesBack` | ceell/network/messaging.c:131-159 | a response on the network leads to an answer of its source and to the send of its destination that drew its number |
| `MessagingRuns.SeqOfInjective` | ceell/network/messaging.c:461-465 | the numbers of 2^32 consecutive sends are different |
| `Messaging.SuccessIsOwnReply` | ceell/network/messaging.c:509-523 | in every interleaving, whatever is delivered: a successful send hands back status and payload of the latest response carrying the number drawn by that send and delivered after its claim |
| `Messaging.StaleRepliesIgnored` | ceell/network/messaging.c:222-247 | with at most 2^32 sends that response carries the number of no other send of the run, timed out or not, at any priority, and below 2^32 sends it does not carry 0 |
| `Messaging.NumbersGoUpExactly` | ceell/network/messaging.c:461-462 | sequence numbers increase from send to send, and avoid 0, in all runs of up to n sends if and only if n < 2^32 |
| `Messaging.NumbersDistinctExactly` | ceell/network/messaging.c:461-462 | no number is drawn twice in any run of up to n sends if and only if n <= 2^32 |
| `Messaging.NextIsHigherIff` | ceell/network/messaging.c:461-462 | each number is higher than the one before, except once in 2^32 sends |
| `Messaging.RunClientOk` | ceell/network/messaging.c:222-247 | in every reachable state a semaphore count or a completed take means the slot holds a response to the current send |
| `MessagingProgress.DeliveryEndsWait` | ceell/network/messaging.c:222-247 | at every priority, while a send waits: delivering any response with its number and priority ends the wait, and the send hands over that response's status, whatever it is, and up to 127 characters of its payload |
| `MessagingProgress.EverySendEndsOnce` | ceell/network/messaging.c:429-529 | at each priority the sends made are, in order, those that ended, each with one outcome, and the one under way |
| `MessagingProgress.RequestArrives` | ceell/network/messaging.c:286-299 | the item a handler thread gets carries the service name (up to 31 characters) and the payload (up to 127) the caller gave, and the number, sender, priority, deadline and send time |
| `MessagingProgress.PriorityKept` | ceell/network/messaging.c:279-284 | the three priorities stay what they are, and anything else is NORMAL |
| `MessagingProgress.QueueCanBeDrained` | ceell/network/messaging.c:172-217 | from every reachable state, if every lookup and handler call comes to something, the handler thread can go on to answer all that was accepted, in order |
| `Messaging.SeqCounts` | ceell/network/messaging.c:461-465 | the next sequence number is one more than the number of claims, modulo 2^32 |
| `Messaging.SeqSurvivesTheWire` | ceell/network/messaging.c:475-475 | casting a sequence number to int and back loses nothing |
| `Messaging.RequestsConserved` | ceell/network/messaging.c:277-316 | per priority, in every reachable state: of the requests received, in the order received, those that found room were accepted and the others rejected; the accepted ones are, in that order, those answered, the one in handling and those queued; the queue is within its depth |
| `Messaging.CountsConserved` | ceell/network/messaging.c:277-316 | received = answered + turned away + in handling + queued, per priority and always |
| `Messaging.AnsweredExactlyOnce` | ceell/network/messaging.c:163-218 | exactly one response leaves for every answered or rejected request, to the address it came from, echoing its number, and no other response |
| `Messaging.PrioritiesIsolated` | ceell/network/messaging.c:302-315 | queue, handling, answers and rejections of a priority depend only on the events of that priority |
| `Messaging.ApplyServerOk` | ceell/network/messaging.c:172-217 | each step keeps the order of service and the depth |
| `Messaging.ExpiredIffNothingRemains` | ceell/network/msg_deadline.c:9-40 | a message has expired exactly when it has a deadline and no time remains, clamping included |
| `Messaging.RemainingIsTimeToExpiry` | ceell/network/msg_deadline.c:9-40 | short of the clamp, a message has expired after the remaining time and not a millisecond before |
| `Messaging.HonestExactlyBelow16Bits` | ceell/network/messaging.c:178-193 | the handler rejects exactly the messages whose deadline, as received, has passed, at all times, if and only if that deadline is below 2^16 |
| `MessagingNode.Endpoint.constructor` | ceell/network/messaging.c:338-357 | starts with number 1, zeroed slots, semaphores at 0 and empty queues |
| `MessagingNode.Endpoint.ClaimSlot` | ceell/network/messaging.c:442-467 | draws the next number, resets slot and semaphore of the normalised priority only |
| `MessagingNode.Endpoint.SendRequest` | ceell/network/messaging.c:473-502 | the datagram carries the claimed number and the call; a failure abandons the send |
| `MessagingNode.Endpoint.TakeSemaphore` | ceell/network/messaging.c:509-515 | succeeds exactly when a count is there, and consumes it; else the send times out |
| `MessagingNode.Endpoint.CopyResponse` | ceell/network/messaging.c:518-523 | hands back the slot and closes the send |
| `MessagingNode.Endpoint.HandleResponse` | ceell/network/messaging.c:222-247 | fills the slot of the normalised priority when the number matches, and changes nothing otherwise |
| `MessagingNode.Endpoint.HandleRequest` | ceell/network/messaging.c:277-316 | queues at the normalised priority, or answers "queue full" at once |
| `MessagingNode.Endpoint.Dispatch` | ceell/network/messaging.c:251-329 | a datagram is a request, a response or ignored |
| `MessagingNode.Endpoint.NextItem` | ceell/network/messaging.c:172-176 | takes the oldest item of the priority |
| `MessagingNode.Endpoint.AnswerItem` | ceell/network/messaging.c:178-217 | answers deadline expired, unknown service or the handler's result, to the item's address |
| `MessagingNode.Endpoint.SetQueue` | ceell/network/messaging.c:121-129 | each priority has its own queue |
| `DedupRing.ExactlyOnceIffWithinSkew` | ceell/network/msg_redundancy.c:105-132 | two paths that carry the whole stream in order: for every interleaving the accepted numbers are the stream, once each and in order, if and only if no number is delivered more than 32 behind the other path; the stream need only be free of repetitions within what the ring sees |
| `DedupRing.ExactlyOnceIffRecalled` | ceell/network/msg_redundancy.c:105-132 | any paths, any losses and reordering: each number is accepted once, in the order of first arrival, if and only if each repetition comes while its number is among the last 32 new ones |
| `DedupRing.SpanExactly` | ceell/network/msg_redundancy.c:105-132 | two paths that each lose anything but keep order: a skew of up to s positions is safe for all arrivals if and only if s <= 15 |
| `DedupRing.LossyPathsExactlyOnce` | ceell/network/msg_redundancy.c:105-132 | so within 15 positions whatever arrives is accepted exactly once |
| `DedupRing.SkewIsRecall` | ceell/network/msg_redundancy.c:109-121 | without loss, being recalled is being at most 32 behind |
| `DedupRing.NumbersFollowPositions` | ceell/network/msg_redundancy.c:105-132 | the ring works on numbers as it would on positions in the stream |
| `DedupRing.NearbyDistinctSeesApart` | ceell/network/msg_redundancy.c:105-132 | without loss and within the skew, a number need differ only from the 32 before and after it |
| `DedupRing.LeadOf33Duplicates` | ceell/network/msg_redundancy.c:110-111 | the bound is tight: a lead of 32 is filtered, of 33 is not |
| `DedupRing.ReacceptanceIsFar` | ceell/network/msg_redundancy.c:109-129 | between two acceptances of a number lie at least 32 others; number 0 is no exception |
| `DedupRing.NothingLost` | ceell/network/msg_redundancy.c:105-132 | a number arrived if and only if it was accepted at some time |
| `DedupRing.OldInWindow` | ceell/network/msg_redundancy.c:110-121 | an accepted number is remembered exactly while it is among the last 32 |
| `DedupRing.Ring.constructor` | ceell/network/msg_redundancy.c:36-39 | a zeroed ring remembers nothing, not even 0 |
| `DedupRing.Ring.Check` | ceell/network/msg_redundancy.c:105-132 | true exactly when the number is among the last min(n, 32) accepted; otherwise it is recorded |
| `Services.ConfiguredIsOffered` | src/main.c:79-98 | from any configured text and any built-in services over registration, announcement and peer entry: a non-empty name is offered exactly when the configuration listed it or it is built in and one of the 4 slots was left for it; the entry is missing exactly when the table was full |
| `Services.RegisteredNames` | src/main.c:79-98 | the registered names are the configured ones and then the built-in ones there is room for, all of them valid |
| `Services.FoundExactlyWhenListed` | ceell/network/service_discovery.c:14-41 | a non-empty name is found in the printed list exactly when it is one of the comma-free names |
| `Services.FoundInJoin` | ceell/network/service_discovery.c:14-41 | for names with commas too: found exactly when it is a field of one of them |
| `Services.CommaNameNotFound` | ceell/network/service_discovery.c:14-41 | a name with a comma is never found |
| `Services.SplitJoin` | ceell/core/service_registry.c:148-178 | splitting the printed list gives the comma-free names back |
| `Services.SplitAtComma` | ceell/core/service_registry.c:148-178 | splitting distributes over a comma |
| `Services.TokensOfSplit` | ceell/network/service_discovery.c:20-38 | the scan visits every field except an empty last one |
| `Services.ParseServicesCsv` | ceell/core/config_parser.c:76-118 | for every text: split on commas, keep fields of 1 to 31 characters, take the first 4, each with priority 1 and no deadline |
| `Services.ParsedAreValid` | ceell/core/config_parser.c:76-118 | what is read is at most 4 names, each 1 to 31 characters without comma |
| `Services.ParseInvertsPrint` | ceell/core/config_parser.c:76-118 | parsing a printed list of valid names, however long, gives back the first 4 |
| `Services.BadFieldsSkipped` | ceell/core/config_parser.c:96-110 | empty and overlong fields are passed over wherever they stand |
| `Services.AnnouncementFits` | ceell/core/service_registry.c:148-178 | 4 names of up to 31 characters fit 128 bytes and the copy into the peer entry loses nothing |
| `Services.AnnouncementTight` | ceell/core/service_registry.c:148-178 | 4 names of 31 characters fill the buffer to the last byte |
| `Services.AnnouncedEntry` | ceell/network/discovery.c:46-98 | after an announcement the sender's entry carries its services, the time, and the address announced when the entry was made; it is missing exactly when the table was full |
| `Services.RegistrationResolves` | ceell/core/service_registry.c:31-62 | a registration never changes what a name already resolves to; a name that resolved to nothing resolves afterwards exactly when there was room and it is the one registered, cut to 31 characters, and then to the handler, priority and deadline registered with it |
| `Services.FoundIsFirst` | ceell/core/service_registry.c:91-108 | a name resolves to the first entry that has it, and to nothing exactly when none has |
| `Services.Registry.RegisterAndResolve` | ceell/core/service_registry.c:31-108 | registering a new name where there is room and looking it up gives back its handler, priority and deadline; a name that was there keeps its own |
| `Services.RegisterAllNames` | src/main.c:79-98 | of any registrations of names of at most 31 characters, the first 4 are kept, whole and in order |
| `Services.Registry.RegisterEach` | src/main.c:79-98 | the registration loop, errors passed over |
| `Services.Registry.constructor` | ceell/core/service_registry.c:22-29 | starts empty |
| `Services.Registry.Register` | ceell/core/service_registry.c:31-62 | appends one entry with the name cut to 31 characters and the handler, priority and deadline given; -EINVAL without a name, -ENOMEM with 4 entries, and then nothing changes |
| `Services.Registry.Find` | ceell/core/service_registry.c:91-108 | the first entry of that name, if any |
| `Services.Registry.Terms` | ceell/core/service_registry.c:91-146 | handler, priority and deadline of the first entry; none, NORMAL and 0 for an unknown or absent name |
| `Services.Registry.NamesCsv` | ceell/core/service_registry.c:148-178 | succeeds exactly when the joined names and a terminator fit, and then the buffer holds them |
| `Services.CsvContains` | ceell/network/service_discovery.c:14-41 | true exactly when the name is one of the visited fields |
| `Services.FindPeer` | ceell/network/service_discovery.c:43-63 | succeeds exactly when some peer offers the service and gives the address of the first |
| `OtaClient.RebootExactlyWhenGuarded` | ceell/ota/ota_client.c:283-361 | a cycle ends in REBOOTING if and only if the manifest arrived whole, its version is strictly greater, every fragment was written, the byte total equals a positive manifest size, the image is confirmed and the upgrade request succeeded; in IDLE if and only if nothing newer was offered; else in ERROR |
| `OtaClient.CycleStates` | ceell/ota/ota_client.c:283-361 | the states of every cycle, told from which of these conditions fails first |
| `OtaClient.CycleReturns` | ceell/ota/ota_client.c:283-361 | the result of every cycle: negative exactly when the trace ends in ERROR or the check failed, and then the code of the first operation that failed, told from the cycle's inputs; 0 otherwise |
| `OtaClient.AsksForOfferedImage` | ceell/ota/ota_client.c:321-327 | an image is asked for only when a newer version is offered, and then under the path of the manifest, whole up to 127 characters |
| `OtaClient.ErrorReachedExactlyFrom` | ceell/ota/ota_client.c:283-361 | some cycle goes from state s directly to ERROR if and only if s is DOWNLOADING, VALIDATING or MARKING |
| `OtaClient.FailedCheckIsIdle` | ceell/ota/ota_client.c:293-307 | a cycle goes from CHECKING to IDLE with an error exactly when the manifest did not arrive whole or names no version |
| `OtaClient.ThreadFollowsGraph` | ceell/ota/ota_client.c:391-423 | on every run the state trace follows the graph, rests in IDLE, ERROR or REBOOTING between cycles, and reboots exactly when a cycle met the guards |
| `OtaClient.CycleEdges` | ceell/ota/ota_client.c:283-361 | every cycle is a path of the graph from CHECKING to IDLE, ERROR or REBOOTING |
| `OtaClient.ManifestCollected` | ceell/ota/ota_client.c:100-118 | for every fragmentation: the buffer holds the whole body, unflagged, exactly when it has at most 511 bytes; else a beginning of it |
| `OtaClient.FirmwareWritten` | ceell/ota/ota_client.c:171-197 | what is written is a prefix of the stream; the stream is active exactly when no flash operation failed, and then all of it was written |
| `OtaClient.Client.constructor` | ceell/ota/ota_client.c:94-98 | starts IDLE with nothing received |
| `OtaClient.Client.ManifestCallback` | ceell/ota/ota_client.c:100-118 | one fragment: appended whole, or flagged and dropped |
| `OtaClient.Client.FetchManifest` | ceell/ota/ota_client.c:120-165 | decodes exactly the received body, or returns the first error |
| `OtaClient.Client.FirmwareCallback` | ceell/ota/ota_client.c:171-197 | one fragment: written, or the stream is deactivated for good |
| `OtaClient.Client.DownloadFirmware` | ceell/ota/ota_client.c:199-279 | returns the first error in the source's order; on success all fragments are in the slot |
| `OtaClient.Client.CheckAndUpdate` | ceell/ota/ota_client.c:283-361 | return value, states and requested paths of a cycle, as the lemmas above characterise them; REBOOTING only with the whole image in the slot |
| `OtaClient.Client.Install` | ceell/ota/ota_client.c:318-360 | its part from the download on, with return value, states and requested paths |
| `OtaClient.Client.Thread` | ceell/ota/ota_client.c:391-423 | the loop's trace, the result of each cycle, and the sleeps it adds |
| `OtaClient.SleepsAfterFailures` | ceell/ota/ota_client.c:406-419 | after the n-th failure in a row the thread sleeps min(3600, n * interval) seconds more, counted on the results of the run; n is 0 after a success |
| `OtaVersion.ParseInvertsPrint` | ceell/ota/ota_version.c:12-62 | parsing a printed version gives it back, for all versions and any following text that does not start with a digit |
| `OtaVersion.ParseParts` | ceell/ota/ota_version.c:22-33 | the loop reads three numbers separated by dots, or fails at the first that is missing |
| `OtaVersion.Parse` | ceell/ota/ota_version.c:12-43 | a version within 255.255.65535, or an error, a null string included |
| `OtaVersion.ReadsText` | ceell/ota/ota_version.c:23-23 | what strtoul reads after any white space and sign: the number, saturated at ULONG_MAX, negated modulo ULONG_MAX + 1 after a minus sign, and where it stops |
| `OtaVersion.NoDigitNoNumber` | ceell/ota/ota_version.c:24-26 | without a digit it reads nothing |
| `OtaVersion.DottedNumbersParse` | ceell/ota/ota_version.c:22-42 | three printed numbers with dots between them are a version exactly when they are at most 255, 255 and 65535 |
| `OtaVersion.NotAVersion` | ceell/ota/ota_version.c:24-32 | a missing number, or anything but a dot after the first two, is an error |
| `OtaVersion.PrintedExample` | ceell/ota/ota_version.c:57-62 | 1, 20 and 305 print as 1.20.305 |
| `OtaVersion.PrintInjective` | ceell/ota/ota_version.c:57-62 | different versions print differently |
| `OtaVersion.PrintFits` | ceell/ota/ota_version.c:57-62 | 5 to 13 characters |
| `OtaVersion.CompareIsRankOrder` | ceell/ota/ota_version.c:45-55 | the sign of the comparison is the total order of major * 2^24 + minor * 2^16 + patch |
| `Timing.RecordsTrueDuration` | ceell/core/timing.c:74-101 | for a section under 2^32 cycles, across counter wrap: the recorded d satisfies d * hz <= cycles * 1000000 < (d + 1) * hz exactly when cycles * 1000000 < 2^32 * hz |
| `Timing.Recorder.TimeSection` | ceell/core/timing.c:64-148 | a timed section shows in the statistics of its label: its true duration lies between the minimum and the maximum reported |
| `Timing.LatestCounts` | ceell/core/timing.c:92-101 | the sample just stored is among those its label's statistics are about |
| `Timing.DurationsMembers` | ceell/core/timing.c:124-137 | the durations of a label are those of its samples and no others |
| `Timing.FastClockFits` | ceell/core/timing.c:43-49 | which a clock of at least 1 MHz guarantees |
| `Timing.MeanBetween` | ceell/core/timing.c:141-148 | the floor of the mean lies between any bounds of the samples, so min <= avg <= max |
| `Timing.SumFits` | ceell/core/timing.c:134-134 | the 64-bit sum never overflows |
| `Timing.SummaryUnique` | ceell/core/timing.c:141-148 | the statistics of a set of samples are determined by them |
| `Timing.RotationSummary` | ceell/core/timing.c:124-139 | and do not depend on where the ring starts |
| `Timing.RingIsRotation` | ceell/core/timing.c:92-101 | the slots in use are the most recent samples, rotated |
| `Timing.StoreNext` | ceell/core/timing.c:92-101 | storing the next sample keeps the most recent ones in their slots |
| `Timing.Recorder.constructor` | ceell/core/timing.c:53-62 | starts with no samples |
| `Timing.Recorder.Stop` | ceell/core/timing.c:74-104 | appends one sample to the history, or nothing before initialisation or without label |
| `Timing.Recorder.GetStats` | ceell/core/timing.c:106-151 | min, max, floor average and count over the last min(n, slots) samples with the label, after any number of stops; -1 exactly when there is none |

## Left out

- Sockets, multicast, HTTP, flash and boot-loader calls appear by their outcomes only, which are arbitrary.
- The Zephyr JSON library is not part of this model; the round trip through JSON text is taken as the identity on its fields.
- Threads appear by their critical sections. In the theorems on what a query answers, a health update is one step, since what other threads do before it ends does not reach the health table (`SafeRuns.UpdateUndisturbed`); for the safe state it is taken apart into its callbacks.
- MessagingNode.Endpoint.ClaimSlot: asks for one sender at a time per priority, because the single response slot cannot serve two.
- What a send does before it claims its slot (null arguments, no peer offering the service, no identity) leaves no trace in messaging state; its service lookup is `Services.FindPeer`, and the peer's address is a parameter of the claim.
- A node whose identity is not set answers nothing; the model's nodes have one.
- A response lost to a failing encoder or socket is a datagram the network never delivers.
- The deadline and send time copied into the caller's reply are the call's own and are not repeated in the model's reply.
- Clock differences between nodes: a deadline set by the sender is compared with the receiver's clock reading, a parameter here.
- Sending on both paths, the second socket and its errors; the ring is fed by any interleaving.
- Overflow of the OTA failure count times the interval, after more failures than a run of years holds.
- The manifest's sha256 text: the code decodes it and does nothing with it, so the model has no such field.
- A manifest without a url, for which the code copies from a null pointer; the model's manifests have one, possibly empty.
- HealthMonitor.HealthTable.RegisterCallback: knows one callback, the one main registers, or none.
- SafeState.SafeStateManager.constructor: has a callback registered throughout, as the record of notices; main registers none.
- Configuration loading, checksums, defaults and the version 2 service objects: branches of a parser over text outside this model. Their service names are registered by the same loop.
- The watchdog thread is an external trigger of the safe state; when it fires is not modelled.
- The timing ring stores a pointer to the label where the model stores its text, so a label changed after a stop is not captured.
- The timing budget counters, the printing of statistics, the copy of the whole health table, network set-up, node identity and the names of states and priorities: each follows from one body.
