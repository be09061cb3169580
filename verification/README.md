# ANP Chat: a verified model

ANP Chat is a distributed chat: replicas keep a signed, grow-only log, find each other through relays,
connect in a bounded mesh of data channels, gossip what is new, repair what they missed, and share names,
revocations and files. This project models the parts of it that carry state, and proves what its design
promises of them.

What changes state in the program is a class here, and each of its methods is proved to compute exactly a
specification function; the properties are lemmas about those functions, over every input, every reachable
state or every run. So that such a function cannot itself be wrong unnoticed, what each operation does is also told
by the plain fields of what it works on (`RelayEffects`, `MeshEffects`, `TransferEffects`, `NameEffects` and the lemmas
named beside the other classes), without the names the functions use. The public methods require and keep `Valid()`, which is the invariant that those lemmas
prove of every run: the bounds of the log, the store, the link table and the transfers. Concurrency is modelled
as steps: the code between two awaits is one step, and the steps of all parties and timers interleave freely.

| file | part |
|---|---|
| `Basics.dfy`, `Ordering.dfy`, `JsMaps.dfy` | string order, the stable sort, insertion-ordered maps |
| `Crdt.dfy`, `Conversation.dfy` | the log, what a conversation accepts, forwards and sends |
| `AntiEntropy.dfy` | truncated version-vector sync: completeness and its exact condition |
| `Replication.dfy` | replicas over a lossy network with saving and restarts |
| `Gossip.dfy` | flooding: coverage, termination, equal logs |
| `RateLimit.dfy` | the relay's token bucket |
| `RelayStore.dfy`, `RelayInvariant.dfy`, `SweepProgress.dfy`, `RelayServer.dfy`, `RelayEffects.dfy`, `RelayRuns.dfy`, `RelayMembers.dfy`, `RelayCrowd.dfy` | the relay's event store |
| `NameService.dfy`, `NameConvergence.dfy`, `NameClocks.dfy`, `NameEffects.dfy`, `NameServer.dfy` | name records and revocations, and when replicas agree |
| `Identity.dfy` | invite chains |
| `Discovery.dfy`, `Candidates.dfy`, `CandidateHistory.dfy`, `CandidateFeed.dfy`, `CandidateScenes.dfy` | scoring, ranking, the candidates it ranks, and when members rank alike |
| `MeshTable.dfy`, `MeshInvariant.dfy`, `MeshEffects.dfy`, `MeshRaces.dfy`, `Mesh.dfy`, `Session.dfy` | the mesh's link table, and the mesh with the candidates that steer it |
| `CanonicalJson.dfy`, `CanonicalMeaning.dfy` | the canonical text that is signed |
| `Base64.dfy`, `FileTransfer.dfy`, `TransferSafety.dfy`, `TransferDelivery.dfy`, `TransferRepeat.dfy`, `TransferEffects.dfy`, `FileService.dfy` | base64url and chunked file transfer |
| `ProofOfWork.dfy` | leading zero bits |

Hashes, signatures, decryption, the locale's collation and random session names are parameters: functions or
predicates of which nothing is assumed but what a lemma names. Clocks are parameters too.

Where the program's documentation promises more than its code keeps, the code is modelled and the exact
condition is proved:

- `src/shared/crdt.ts` says that a version vector cannot miss entries. It can, after gossip overtakes an entry:
  `AntiEntropy.SyncCompletesIffNoHole` gives the condition, `AntiEntropy.OvertakingOpensAHole` the way to break it.
- Epochs are to keep entry ids unique across sessions. They do if and only if a restart finds everything it had
  sent on its store: `Replication.RestartSafeIffStoreCovers`. Saving before sending ensures it; answering a sync
  request between the append and the save breaks it (`Replication.EarlyAnswerUncovers`).
- Replicas of the name service are to converge. For every name and time, replicas offered the same records show the
  same if and only if the newest admissible record is unexpired or all of them have expired
  (`NameConvergence.AgreeIffNewestDecides`); otherwise two schedules of the same records are given that show
  different content (`NameConvergence.Disagreement`). If nobody's clock is ahead they agree more often: if and only if
  no newer record was alive together with the newest live one (`NameClocks.AgreeInClockIffLiveDecides`).
- Canonical texts are equal exactly for equal content, where an array of one `undefined` counts as the empty
  array (`CanonicalMeaning.SameTextIffSameContent`, `CanonicalMeaning.UndefinedItemIsLost`).
- A network's membership index can outgrow its bound of 2000, exactly when a newcomer expires before everybody in
  it (`RelayInvariant.JoinIndexOutgrows`); 2299 JOINs can leave 2299 rows (`RelayCrowd.IndexOutgrown`).
- The rounded comparison of scores ranks a pair as the exact one does if and only if the scores are equal, or their
  difference does not round to zero, or the ids happen to agree with the scores (`Discovery.ComparatorIsExact`). Whole
  seconds and milliseconds always pass (`Discovery.WholeIsSeparated`). The ranking is independent of the order in which
  the candidates were learned if and only if the comparator decides every pair and goes round in no circle
  (`Discovery.RankingIsFixedIffConsistent`); three rows of a peer's table with fractional latencies put it in one
  (`CandidateScenes.FractionsCanBreakTheOrder`).
- A second announcement of a blob can make an honest transfer fail. It is harmless if and only if it comes before the
  first chunk (`TransferRepeat.SecondMetaIsHarmlessIffEarly`), or after the last one with no chunk behind it
  (`TransferRepeat.SecondMetaAfterTheLastChunk`); `TransferRepeat.TwoChunksAnnouncedTwice` is the shortest failure.
- Members that received the same deliveries, in whatever order and however often, are to rank alike. They do if and
  only if, for every viable candidate, the events observed last earn the same invite credit and the latencies measured
  last agree (`CandidateFeed.SameDeliveriesSameRanking`); in an open network without measured latencies always
  (`CandidateFeed.OpenNetworksRankAlike`). In an invite network a HEARTBEAT after the JOIN takes the credit away
  (`CandidateScenes.HeartbeatForgetsInvite`).
- A link's node is always a known peer, and a stopped mesh has no links, if and only if no offer is answered for a sender
  that has gone meanwhile, or after the stop (`MeshRaces.AlwaysKnownIffNoneOrphaned`,
  `MeshRaces.AlwaysSilentIffNoneRevived`); both happen (`MeshRaces.LinkOutlivesPeer`, `MeshRaces.LinkAfterShutdown`).

## Model

| member | source | states |
|---|---|---|
| Ordering.SortStable | src/relay/server.ts:206 | sorting keeps the input order of elements that tie |
| Ordering.SortIgnoresInputOrder | src/shared/discovery.ts:87-92 | without ties, the sorted list depends on the contents only |
| Crdt.EntryIdInjective | src/shared/crdt.ts:97 | an entry id names one origin and one sequence number, even if the origin contains colons |
| Crdt.ReplicaNodeId | src/shared/crdt.ts:37-40 | the node id is the part of the replica id before its first dot |
| Crdt.AppendWf | src/shared/crdt.ts:93-108 | an append mints an id the log never held, later than everything it holds, and keeps the marks and the clock exact |
| Crdt.AppendMints | src/shared/crdt.ts:93-108 | the new entry has the given content, goes last, is numbered one above the own entries, and is one tick later than everything held |
| Crdt.MergeWf | src/shared/crdt.ts:111-122 | after any merge the marks are the highest sequence numbers and the clock the highest Lamport time present |
| Crdt.MergeIsUnion | src/shared/crdt.ts:111-122 | a merge is a set union on ids, ignoring entries that do not carry their own name |
| Crdt.MergeExtends | src/shared/crdt.ts:111-122 | a merge changes nothing that was there and adds only from the batch |
| Crdt.MergeReportsTheNew | src/shared/crdt.ts:111-122 | what a merge reports as added are exactly the ids that were absent, each once |
| Crdt.MergeIdempotent | src/shared/crdt.ts:114 | receiving a batch again changes nothing |
| Crdt.BeforeIsOrder | src/shared/crdt.ts:125-129 | the comparison by Lamport time and id is an order |
| Crdt.OrderedContents | src/shared/crdt.ts:125-129 | the ordered log is the log without repetition, rising in Lamport time and, where these agree, in id |
| Crdt.SameEntriesSameOrder | src/shared/crdt.ts:6-11 | logs with the same entries are shown in the same order, whatever order the entries came in |
| Crdt.SameEntriesSameClock | src/shared/crdt.ts:87-89 | logs with the same entries have the same version vector and clock |
| Crdt.RehydrationRestores | src/shared/crdt.ts:150-158 | saving and loading restores entries, vector, clock and order |
| Crdt.GSetLog.constructor | src/shared/crdt.ts:91 | a new log is empty |
| Crdt.GSetLog.Append | src/shared/crdt.ts:93-108 | appends exactly the next own entry, under a fresh id and a later Lamport time |
| Crdt.GSetLog.Merge | src/shared/crdt.ts:111-122 | computes the merge and returns exactly the entries that were new |
| Crdt.GSetLog.MissingFrom | src/shared/crdt.ts:142-144 | the answer is sorted, free of repetition, and holds exactly the entries above the remote marks |
| Crdt.GSetLog.ToJson | src/shared/crdt.ts:150-152 | what is saved is the whole log in its order |
| Crdt.GSetLog.FromJson | src/shared/crdt.ts:154-158 | loads a saved log into a well-formed one |
| Conversation.AcceptedIds | src/client/conversation.ts:537-549 | after a delta a log holds its old ids and exactly those of the chat and file entries among the first 512 that carry their own name and check out; what is new comes from the delta, once for each id |
| Conversation.Conversation.AcceptEntries | src/client/conversation.ts:537-556 | the ids held are the old ones and exactly those of the first 512 entries of kind chat or file whose id is made of their origin and sequence number and whose key and signature check out; exactly the new ones are forwarded, those of others counted as unread, and the latest time kept |
| Conversation.Conversation.Bump | src/client/conversation.ts:558-563 | unread grows by the entries of other nodes; the last time is the latest seen |
| Conversation.Conversation.SendChat | src/client/conversation.ts:567-581 | the one entry that is announced is already in what was saved |
| Conversation.Conversation.AnswerSync | src/client/conversation.ts:524-527 | a sync request is answered with exactly the entries above its marks, each once, oldest first, so that a cut keeps the oldest |
| Crdt.DeltaMembers | src/shared/crdt.ts:142-144 | a delta is sorted, free of repetition, and holds exactly the entries above the marks |
| AntiEntropy.DeltaIsTheUnseen | src/shared/crdt.ts:136-144 | a delta is exactly what the requester lacks if and only if nothing it lacks lies at or below its own mark |
| AntiEntropy.RoundKeepsNoHole | src/client/conversation.ts:538 | cutting a delta to its first 512 entries opens no hole |
| AntiEntropy.RoundProgress | src/client/conversation.ts:524-548 | a round brings exactly the first 512 of the missing entries |
| AntiEntropy.RoundsProgress | src/client/conversation.ts:524-548 | n rounds leave exactly the excess over 512 n entries |
| AntiEntropy.HoleIsPermanent | src/shared/crdt.ts:118 | an entry missing below the requester's mark stays missing, whoever answers and however often |
| AntiEntropy.SyncCompletesIffNoHole | src/shared/crdt.ts:9-11 | sync completes, in the fewest rounds the truncation allows, if and only if the requester has no hole |
| AntiEntropy.GapFreeHasNoHole | src/shared/crdt.ts:87 | a requester whose entries are numbered without gaps has no hole |
| AntiEntropy.GapFreeLogsSync | src/shared/crdt.ts:136-144 | between gap-free logs a delta is exactly what is missing, and k missing entries take k/512 rounds, rounded up |
| AntiEntropy.RoundKeepsGapFree | src/client/conversation.ts:524-556 | a truncated round keeps a gap-free log gap-free |
| AntiEntropy.OvertakingOpensAHole | src/client/conversation.ts:552 | whenever a later entry is heard before an earlier one, sync with the author never brings the earlier one |
| Replication.InitialInv | src/client/conversation.ts:186-194 | empty replicas satisfy the invariant |
| Replication.AppendKeepsInv | src/client/conversation.ts:575 | appending keeps the invariant |
| Replication.PersistKeepsInv | src/client/conversation.ts:577 | saving keeps the invariant |
| Replication.SendKeepsInv | src/client/conversation.ts:579 | sending any entries held keeps the invariant |
| Replication.DeliverKeepsInv | src/client/conversation.ts:537-556 | delivering anything, repeated, reordered or forged, keeps the invariant |
| Replication.RestartKeepsInv | src/client/conversation.ts:186-194 | a restart from a store that covers what was sent keeps the invariant |
| Replication.RunKeepsInv | src/client/conversation.ts:186-194 | the invariant holds after every run with such restarts |
| Replication.IdsAreUnique | src/shared/crdt.ts:29-36 | two copies of an id anywhere, in a log, on a store or on the wire, are the same entry |
| Replication.Convergence | src/shared/crdt.ts:6-11 | after any run, replicas that hold the same ids show the same list |
| Replication.CausesAreEarlier | src/shared/crdt.ts:93-117 | along any chain of causes Lamport times rise |
| Replication.OrderExtendsCausality | src/shared/crdt.ts:124-129 | the displayed order is a linear extension of happens-before |
| Replication.LogsFitForSync | src/shared/crdt.ts:111-144 | reachable logs are well-formed, their Lamport times rise with the sequence numbers, as anti-entropy needs, and they agree on shared ids |
| Replication.UncoveredRestartForks | src/client/conversation.ts:186-194 | after a restart from a store that lacks something sent, one more run gives an id two contents |
| Replication.RestartSafeIffStoreCovers | src/shared/crdt.ts:29-36 | a restart keeps ids unique in every later run if and only if the store held everything sent |
| Replication.EarlyAnswerUncovers | src/client/conversation.ts:524-527 | sending an entry before it is saved leaves the store uncovered |
| Replication.SavingStepKeepsCover | src/client/conversation.ts:575-579 | saving before sending keeps every store covering what was sent |
| Replication.SavingRunIsCareful | src/client/conversation.ts:575-579 | so in such runs every restart is safe |
| Gossip.StartInv | src/client/conversation.ts:537-581 | the coverage invariant holds at the start |
| Gossip.SpeakKeepsInv | src/client/conversation.ts:567-581 | speaking keeps it |
| Gossip.ReceiveKeepsInv | src/client/conversation.ts:537-549 | receiving keeps it |
| Gossip.ForwardKeepsInv | src/client/webrtc.ts:548-555 | forwarding to every link but the sender's keeps it |
| Gossip.ForwardSkipsTheSender | src/client/webrtc.ts:548-555 | a forward sends one copy on every link of its node but the one the news came on, and none elsewhere |
| Gossip.MoveKeepsInv | src/client/conversation.ts:537-581 | on every link, what one end holds the other holds or is about to be sent, after every move |
| Gossip.FloodKeepsInv | src/client/conversation.ts:537-581 | and after every run |
| Gossip.MessageIsGood | src/client/conversation.ts:538-547 | no flooded message is cut at 512 or refused |
| Gossip.ReceiveWorks | src/client/conversation.ts:548-552 | every receipt lowers the work that is left |
| Gossip.ForwardWorks | src/client/webrtc.ts:548-555 | every forward lowers the work that is left |
| Gossip.FloodEnds | src/client/conversation.ts:549-552 | a flood nobody adds to ends within the work it started with |
| Gossip.StuckIsQuiet | src/client/webrtc.ts:548-555 | nothing can move exactly when nothing is in flight or waiting to be forwarded |
| Gossip.QuietMeansEqual | src/client/conversation.ts:537-581 | in a quiet connected mesh all replicas hold everything and show the same list |
| Gossip.FloodConverges | src/client/conversation.ts:537-581 | whatever was said and in whatever order messages travel, the flood ends, and ends with equal logs |
| RateLimit.TokenBucket.constructor | src/relay/server.ts:84-86 | a new bucket is full |
| RateLimit.TokenBucket.Take | src/relay/server.ts:88-95 | refills for the time passed and takes the cost if it is there |
| RateLimit.TokensInRange | src/relay/server.ts:88-95 | the tokens stay between 0 and 60 |
| RateLimit.WindowBound | src/relay/server.ts:88-95 | in every window the granted cost is at most 60 plus 6 a second |
| RateLimit.AdmitsExactlyTheRate | src/relay/server.ts:76-96 | a sequence of calls is wholly granted if and only if no window of it asks for more than that |
| RateLimit.GrantedIffRoom | src/relay/server.ts:88-95 | in any sequence, refusals included, a call is granted if and only if, in every window ending with it, what was granted and its own cost stay within 60 tokens plus 6 a second |
| RateLimit.RefusalIsFree | src/relay/server.ts:92 | a refused call changes nothing for any later one |
| RelayStore.OldestOf | src/relay/server.ts:257-265 | the victim is the first of the oldest events of the chosen node |
| RelayEffects.AdmissionOutcome | src/relay/server.ts:152-177 | an event is refused exactly for an id already held, or as a SIGNAL or INVITE of a node that has 256 of them |
| RelayEffects.AdmissionContents | src/relay/server.ts:157-178 | a stored event goes last, after the events of its node and kind are gone if the kind is JOIN, HEARTBEAT, LEAVE or MANIFEST, and, at 5000 events, the first of the oldest of a node with the most |
| RelayEffects.AddRemovesExactly | src/relay/server.ts:157-168 | where there is room, an add removes an event if and only if it stores another of its network, node and kind, and the kind is JOIN, HEARTBEAT, LEAVE or MANIFEST |
| RelayEffects.AddSparesOthers | src/relay/server.ts:120-127 | an add leaves every other network with its events, members and activity as it was, except that a new network at a full relay displaces the first of those idle the longest |
| RelayEffects.AddAdmits | src/relay/server.ts:120-127 | the event's network becomes the most recently active, and its bucket is what admission makes of the old one |
| RelayEffects.JoinedRows | src/relay/server.ts:128-151 | a JOIN sets its node's row to its expiry, at most 300 seconds on, unless the row lasts longer, and drops at most one other row, of more than 2000 the first that expires soonest |
| RelayEffects.AddIndexes | src/relay/server.ts:128-151 | only a JOIN changes a membership index, and only its network's |
| RelayEffects.SweepTakesTheExpired | src/relay/server.ts:209-222 | a sweep takes exactly the expired events, and the networks left empty, with their activity |
| RelayEffects.SweepRowsExactly | src/relay/server.ts:223-228 | and exactly the expired memberships |
| RelayInvariant.FewDiscoveryEvents | src/relay/server.ts:154-168 | a node has at most one event of each of the four discovery kinds in a bucket |
| RelayInvariant.EvictionIsFair | src/relay/server.ts:238-267 | eviction takes exactly one event, the first of the oldest of a node with the most events |
| RelayInvariant.Pigeonhole | src/relay/server.ts:245-256 | a bucket holds at most c events per node if no node holds more than c |
| RelayInvariant.QuietNodesAreSpared | src/relay/server.ts:238-267 | at a full bucket with fewer than 1250 nodes, eviction takes nothing from a node without signals or invites |
| RelayInvariant.AdmittedInv | src/relay/server.ts:152-178 | admission keeps the bucket bounds, and the per-node event cap never refuses |
| RelayInvariant.ColdestGoes | src/relay/server.ts:182-197 | at 1000 networks exactly one, idle the longest, leaves with its index and activity |
| RelayInvariant.AddKeepsInv | src/relay/server.ts:120-179 | every add keeps at most 1000 networks, non-empty buckets of at most 5000 events, one discovery event per node and kind, 256 signals and invites per node, and activity for exactly the networks present |
| RelayInvariant.SweepKeepsInv | src/relay/server.ts:209-230 | sweeping keeps the same |
| RelayInvariant.JoinIndexOutgrows | src/relay/server.ts:138-150 | the membership index outgrows its bound exactly when a newcomer to a full index expires before everybody in it |
| RelayCrowd.CrowdIsKept | src/relay/server.ts:138-150 | in a run of up to 2299 JOINs of different nodes, the last of them each expiring sooner than all before, nobody is ever trimmed |
| RelayCrowd.IndexOutgrown | src/relay/server.ts:138-150 | so 2299 accepted JOINs leave 2299 rows in an index meant for 2000 |
| RelayServer.EventStore.constructor | src/relay/server.ts:102-108 | a new store is empty: the store of the empty run |
| RelayServer.EventStore.IsLiveMember | src/relay/server.ts:115-118 | who counts as a member has joined: in everything ingested so far there is an accepted JOIN of that node, less than 300 seconds old and not expired |
| RelayServer.EventStore.AddEvent | src/relay/server.ts:120-179 | adds as specified and keeps the invariant; where there is room it removes exactly the events of the same network, node and kind, of a kind that a node has once, and a JOIN makes its node a member until its expiry or for 300 seconds |
| RelayServer.EventStore.Ingest | src/relay/server.ts:298-312 | accepts exactly the verified events that are JOINs or of a present member, but for new SIGNALs and INVITEs beyond 256 of a node; and any other event than a JOIN only from a node whose JOIN was accepted and still counts |
| RelayServer.EventStore.OpenNetwork | src/relay/server.ts:121-127 | makes room for a network and marks it active |
| RelayServer.EventStore.EvictColdestNetwork | src/relay/server.ts:182-197 | drops the network idle the longest |
| RelayServer.EventStore.RecordJoin | src/relay/server.ts:128-151 | the joiner's row becomes the later of its old expiry and the JOIN's, clamped to 300 seconds from now; the index is trimmed |
| RelayServer.EventStore.Supersede | src/relay/server.ts:157-168 | drops exactly the events of the same node and kind, if the kind is JOIN, HEARTBEAT, LEAVE or MANIFEST, and counts right while deleting |
| RelayServer.EventStore.EvictOldest | src/relay/server.ts:244-267 | evicts as specified |
| RelayServer.EventStore.CountNodes | src/relay/server.ts:245-248 | counts the events of each node, in order of first appearance |
| RelayServer.EventStore.QueryEvents | src/relay/server.ts:199-207 | answers as specified |
| RelayServer.EventStore.SweepExpired | src/relay/server.ts:209-230 | deleting while iterating removes exactly what has expired |
| RelayServer.EventStore.SweepBucket | src/relay/server.ts:212-217 | keeps exactly the live events of a bucket, in order |
| RelayServer.EventStore.SweepNetworks | src/relay/server.ts:211-222 | removes expired events and empty networks with their activity |
| RelayServer.EventStore.SweepRows | src/relay/server.ts:224-226 | keeps exactly the memberships that last |
| RelayServer.EventStore.SweepJoins | src/relay/server.ts:223-228 | sweeps every network's index and drops the empty ones |
| RelayRuns.RunInv | src/relay/server.ts:120-230 | the store invariant holds in every reachable state |
| RelayRuns.RunSponsored | src/relay/server.ts:128-151 | every membership in the index is backed by an accepted JOIN, until no later than its clamped expiry |
| RelayRuns.MembershipGate | src/relay/server.ts:110-118 | every accepted other event has an earlier accepted JOIN of its node in its network, younger than 300 seconds and not expired |
| RelayRuns.IngestDecides | src/relay/server.ts:298-312 | an event is accepted if and only if it is verified, a JOIN or of a present member, and not a new SIGNAL or INVITE beyond 256; what is refused at the door changes nothing |
| RelayMembers.JoinMakesMember | src/relay/server.ts:128-139 | after a JOIN its node is a member at every time below its expiry and below 300 seconds on, whatever was known of it before |
| RelayMembers.MemberUnlessEnded | src/relay/server.ts:110-151 | until it runs out, a membership ends in a step if and only if its row is trimmed or its network displaced |
| RelayMembers.MembershipLasts | src/relay/server.ts:110-230 | in any run, the node of an accepted JOIN stays a member until the JOIN runs out if and only if neither happens |
| RelayMembers.MembersAreHeard | src/relay/server.ts:298-312 | so whatever it publishes in that time is accepted, but for SIGNALs and INVITEs beyond 256 |
| RelayRuns.QuietMembersKeepTheirEvents | src/relay/server.ts:152-178 | in any reachable store, adding an event to a network of fewer than 1250 nodes takes from a node without signals or invites nothing but what that node's own event supersedes, and keeps the order of the rest |
| RelayRuns.KeptUnlessLost | src/relay/server.ts:120-230 | such a node's event leaves in a step, add or sweep of any network, if and only if a sweep finds it expired, a new event of that node and kind is stored, or its network is the coldest at 1000 networks |
| RelayRuns.QuietEventsLast | src/relay/server.ts:120-230 | in any run, such an event is in the store from one point to another if and only if none of the steps between is of these three kinds |
| RelayRuns.QueryIsExact | src/relay/server.ts:199-207 | a query returns exactly the unexpired events of the network, of the wanted kinds, node and age, and SIGNALs only to their target, by creation time and then by arrival |
| RelayRuns.SweepKeepsQueries | src/relay/server.ts:209-222 | sweeping earlier changes no later answer |
| RelayRuns.SweepKeepsMembers | src/relay/server.ts:223-228 | nor any later membership |
| NameService.ParserUndoesPrinter | src/shared/nameservice.ts:31-48 | the parser recognizes exactly the printed revocation names, slashes in the id included |
| NameService.SlotBelongsToAuthor | src/shared/nameservice.ts:57-63 | a valid revocation record stands under its author's name for the invite it revokes |
| NameService.MergeIsStrictRise | src/shared/nameservice.ts:128-136 | among unexpired records, an offer wins exactly when it is admissible and strictly newer |
| NameEffects.MergeEffect | src/shared/nameservice.ts:112-137 | a record is taken exactly if it is unexpired, of this network, signed and under its author's name if it revokes, and finds nothing, something expired, or a record of lower version, or earlier time, or smaller signature, in this order; no other name changes |
| NameEffects.ResolveEffect | src/shared/nameservice.ts:139-147 | a name resolves to its record until that expires, and then the record is removed |
| NameEffects.PurgeEffect | src/shared/nameservice.ts:149-152 | a purge removes exactly the expired |
| NameEffects.LoadEffect | src/shared/nameservice.ts:156-161 | after loading, no record loaded or stored beats the one held under its name |
| NameConvergence.NewestIsHeld | src/shared/nameservice.ts:99-152 | from the moment it is offered, an admissible record that has not expired and has no newer rival is held, whatever else is merged, resolved or listed, in whatever order |
| NameConvergence.DecidedIsShown | src/shared/nameservice.ts:99-137 | if the newest record is unexpired every replica shows exactly it, and if all have expired none shows anything |
| NameConvergence.AgreeIffNewestDecides | src/shared/nameservice.ts:4-12 | for every name and time, all replicas offered the same records by then agree if and only if the newest admissible record is unexpired or all have expired |
| NameConvergence.AgreeAlwaysIffNewestOutlives | src/shared/nameservice.ts:4-12 | they agree at every time if and only if no record outlives the newest one |
| NameConvergence.Convergence | src/shared/nameservice.ts:4-12 | while nothing expires, replicas offered the same records store the same, whatever the order and the repetitions |
| NameConvergence.WinsAreBounded | src/shared/nameservice.ts:122-131 | with n distinct admissible records of a name on offer, a replica gossips it on at most n(n+1)/2 times, even if records expire |
| NameConvergence.WinsWithoutExpiry | src/shared/nameservice.ts:128-131 | and at most n times while nothing expires |
| NameConvergence.Disagreement | src/shared/nameservice.ts:122-127 | otherwise two schedules of the same records, one early and one late, show different content |
| NameClocks.LiveIsHeld | src/shared/nameservice.ts:116-131 | if no record is offered before its own time, a live record is held from its offer on, unless a newer one was alive together with it |
| NameClocks.AgreeInClockIffLiveDecides | src/shared/nameservice.ts:4-12 | replicas offered the same records, none before its own time, agree if and only if all have expired or no newer record was alive together with the newest live one |
| NameClocks.DisagreementInClock | src/shared/nameservice.ts:122-127 | otherwise a replica that heard of both while the newer was alive does not show the live one, and a replica that hears of them late does |
| NameClocks.RestartedPublisher | src/shared/nameservice.ts:120-127 | a record issued under a lower version after the last one expired reaches every replica if no clock is ahead, and need not otherwise |
| NameService.AfterIsFiled | src/shared/nameservice.ts:116-119 | the reserved namespace only ever holds revocations bound to their authors |
| NameService.OnlyItsAuthorFillsASlot | src/shared/nameservice.ts:21-30 | a revocation slot can hold records of its author only |
| NameService.SlotIgnoresOthers | src/shared/nameservice.ts:24-29 | the unexpired content of a slot equals that after its author's own records alone |
| NameService.RevocationsExact | src/shared/nameservice.ts:169-183 | the revocation map names an author exactly when its slot holds something unexpired |
| NameService.RevocationIsEnforced | src/shared/identity.ts:175-176 | while it is unexpired, a revocation by issuer or genesis key defeats every chain with the certificate, whatever others publish |
| NameService.LoadRestores | src/shared/nameservice.ts:156-161 | loading a saved listing into an empty replica restores it |
| NameServer.NameServiceStore.constructor | src/shared/nameservice.ts:106-109 | a new replica is empty |
| NameServer.NameServiceStore.MergeRecord | src/shared/nameservice.ts:112-137 | merges as specified and reports wins |
| NameServer.NameServiceStore.ResolveName | src/shared/nameservice.ts:139-147 | answers with the unexpired record and drops an expired one |
| NameServer.NameServiceStore.PurgeExpired | src/shared/nameservice.ts:150-152 | deleting while iterating removes exactly the expired records |
| NameServer.NameServiceStore.ListAll | src/shared/nameservice.ts:149-154 | lists exactly the unexpired records, each once, in the locale's order |
| NameServer.NameServiceStore.Load | src/shared/nameservice.ts:156-161 | keeps the newer of a loaded and a stored record |
| NameServer.NameServiceStore.RevocationMap | src/shared/nameservice.ts:169-183 | collects the revokers of the listed revocations |
| Identity.AcceptedIffGood | src/shared/identity.ts:166-238 | the walk accepts exactly the chains that obey every rule, and grants the last link's rights |
| Identity.DelegationAttenuates | src/shared/identity.ts:215-227 | an accepted chain starts at the genesis key, all links but the last may invite, and the granted rights are held by every link |
| Identity.PrefixesAreAccepted | src/shared/identity.ts:166-182 | every non-empty prefix of an accepted chain is accepted for its own subject |
| Identity.AuthorityOnlyShrinks | src/shared/identity.ts:205-214 | neither waiting nor a further revocation makes a chain acceptable, and what stays accepted grants the same rights |
| Identity.HistoryKeepsMembers | src/shared/identity.ts:177-181 | a chain good today passes the check without expiry exactly when every link was issued for more than a second |
| Identity.RevocationDefeatsChains | src/shared/identity.ts:240-252 | a revocation by issuer or genesis key defeats every chain with the certificate |
| Identity.ReasonsHold | src/shared/identity.ts:166-238 | a rejection gives a reason that holds of the chain and of the link it names |
| Identity.OnlyAuthoritiesRevoke | src/shared/identity.ts:244-252 | revocations by anyone but a link's issuer or the genesis key change no verdict |
| Identity.GenesisNeedsNoChain | src/shared/identity.ts:174-176 | the genesis node needs no chain and has all five rights |
| Discovery.ScoreInUnits | src/shared/discovery.ts:64-74 | with whole seconds and milliseconds every score is a whole number of nine-hundredths |
| Discovery.ComparatorIsExact | src/shared/discovery.ts:87-92 | for any times and latencies, the comparator orders a pair by score and then id if and only if the scores are equal, differ by more than the rounding swallows, or the ids agree with the scores |
| Discovery.BetterIsOrder | src/shared/discovery.ts:80-93 | higher score first, then smaller id, is an order |
| Discovery.WholeIsSeparated | src/shared/discovery.ts:64-92 | whole seconds and milliseconds never yield scores that the rounding confuses |
| Discovery.RankedAsAsked | src/shared/discovery.ts:87-92 | where no two scores are confused, the comparator ranks every list as the exact order does |
| Discovery.RankingIsFixedIffConsistent | src/shared/discovery.ts:80-93 | different candidates are ranked the same way for every input order if and only if the comparator decides every pair and has no circle of three |
| Discovery.UndecidedIffHalf | src/shared/discovery.ts:88-91 | it leaves a pair undecided exactly when the node with the larger id leads by half a millionth |
| Discovery.SeparatedIsConsistent | src/shared/discovery.ts:80-93 | scores that are not confused are compared consistently |
| CandidateScenes.FractionsCanBreakTheOrder | src/client/conversation.ts:484-503 | three viable candidates learned from a peer's table, whose fractional latencies put the comparator in a circle, are ranked in the order in which they were learned |
| Discovery.RankingIsDeterministic | src/shared/discovery.ts:80-93 | where no two scores are confused, the ranking does not depend on the input order, loses nobody, and puts no one behind a lower score |
| Discovery.SelectConnectTargets | src/shared/discovery.ts:118-132 | the targets are exactly the first eligible candidates that fit the free slots |
| Discovery.TargetsAreBest | src/shared/discovery.ts:109-132 | where no two scores are confused, whoever is chosen scores at least as high as any eligible node left out, and someone is left out only when all slots are taken |
| Discovery.ViableWhen | src/shared/discovery.ts:100-107 | a candidate is viable within 300 seconds of its JOIN, within 90 of its HEARTBEAT, or up to 300 after a peer saw it |
| Discovery.RankingHasNoRepeats | src/client/conversation.ts:401-417 | a ranking of candidates with distinct ids never repeats a node |
| Candidates.StepKeepsFiled | src/client/conversation.ts:244-397 | every observation, sighting, LEAVE, peer-table row and cached row leaves candidates filed under their own id |
| Candidates.RunKeepsFiled | src/client/conversation.ts:244-767 | and so does every series of them |
| Candidates.PriorityHasNoRepeats | src/client/conversation.ts:401-417 | the priority handed to the mesh never repeats a node |
| CandidateHistory.BookTells | src/client/conversation.ts:244-503 | after any series of operations a record holds: the latest times since the last LEAVE or table row, the number of all relays that delivered anything of the node since the last LEAVE, the credit of the event observed last, and the last latency; or what the last table row said, with no relays until a new one delivers something |
| CandidateHistory.RowsAndLeaves | src/client/conversation.ts:362-365 | a peer's row sets both times, a cached row the JOIN's, no later than now, neither with relays or, in an invite network, credit; a LEAVE removes everything |
| CandidateHistory.SameCandidate | src/client/conversation.ts:374-397 | members that observed the same events of a node after the same table row and saw the same relays, in any order, have the same record if and only if the last events earn the same credit and the last latencies agree |
| CandidateHistory.SameSignsSameRanking | src/shared/discovery.ts:80-93 | such members rank alike only if every viable node ends alike, and then do if the comparator is consistent on the viable candidates |
| CandidateHistory.WholeSignsSameRanking | src/shared/discovery.ts:80-93 | with whole numbers they rank alike if and only if every viable node ends alike |
| CandidateFeed.FeedStory | src/client/relayclient.ts:177-201 | every delivery counts its relay, and exactly the deliveries of unknown ids are observed |
| CandidateFeed.SameDeliveriesSameSigns | src/client/relayclient.ts:177-201 | members that received the same events by the same relays, in any order and any number of times, observed and saw the same of every node |
| CandidateFeed.SameDeliveriesSameRanking | src/client/conversation.ts:241-257 | with whole numbers they rank alike if and only if, for every viable node, the first deliveries end with the same credit and latency, whatever was repeated |
| CandidateFeed.OpenNetworksRankAlike | src/client/conversation.ts:391 | in an open network before any latency is measured they always rank alike |
| CandidateScenes.HeartbeatForgetsInvite | src/client/conversation.ts:382-392 | in an invite network, members that received the same four deliveries, the JOIN and the HEARTBEAT of an invited node in different order, rank it and the genesis node in opposite orders |
| Candidates.CandidateTable.constructor | src/client/conversation.ts:154-161 | a new conversation knows no candidates |
| Candidates.CandidateTable.Observe | src/client/conversation.ts:374-397 | folds a JOIN or HEARTBEAT into the node's record |
| Candidates.CandidateTable.Sight | src/client/conversation.ts:244-256 | counts the relay of a delivery, and refreshes the count of a known candidate if the relay is new |
| Candidates.CandidateTable.Leave | src/client/conversation.ts:362-365 | forgets the node and its relays |
| Candidates.CandidateTable.Learn | src/client/conversation.ts:489-503 | records a peer learned from a peer table |
| Candidates.CandidateTable.Restore | src/client/conversation.ts:745-763 | records every row of the cached table, in order, with times not after now |
| Candidates.RestoredInTurn | src/client/conversation.ts:748-763 | restoring a table is restoring its rows one after the other |
| Candidates.CandidateTable.Priority | src/client/conversation.ts:401-417 | the ranked viable candidates, without repetition |
| MeshInvariant.CapsAdd | src/client/webrtc.ts:102-107 | a new link within its cap keeps both caps |
| MeshInvariant.AccountedAdd | src/client/webrtc.ts:246-291 | a new link where none was keeps every connection current or closed |
| MeshInvariant.FillSlotsKeeps | src/client/webrtc.ts:188-205 | filling slots opens at most as many links as fit the cap of 8, to larger ids |
| MeshInvariant.MaybeConnectKeeps | src/client/webrtc.ts:208-217 | so does connecting to one node |
| MeshInvariant.OfferKeeps | src/client/webrtc.ts:354-400 | answering an offer keeps the invariant |
| MeshInvariant.OfferReplacesOnlyOlder | src/client/webrtc.ts:355-381 | the branch that yields in a glare never runs, a replacement never lacks room, and only a newer session replaces a link |
| MeshInvariant.ReplyKeeps | src/client/webrtc.ts:403-434 | an answer or candidate is taken once and keeps the invariant |
| MeshInvariant.PriorityKeeps | src/client/webrtc.ts:182-185 | setting a ranking as the priority keeps the invariant |
| MeshInvariant.StepKeeps | src/client/webrtc.ts:129-638 | every step keeps the invariant |
| MeshInvariant.RunKeepsInv | src/client/webrtc.ts:102-118 | in every run that never ranks a node twice: at most 16 links, at most 8 initiated by us and those to larger ids, and every connection ever made is current or was closed |
| MeshInvariant.OnlyOneIsDropped | src/client/webrtc.ts:506-525 | dropping a node's link loses no other connection |
| Session.PriorityIsKeyed | src/client/conversation.ts:401-417 | the candidates handed to the mesh never repeat a node |
| Session.WhoIsTouched | src/client/conversation.ts:399-403 | the ranking of the viable candidates becomes the mesh's priority and fills its slots; observations touch no link, and the mesh's events no candidate |
| Session.RunKeepsInv | src/client/conversation.ts:362-417 | so the invariant holds in every interleaving of candidate updates, rankings and mesh steps |
| Session.MeshStaysBounded | src/client/webrtc.ts:102-118 | in every such run, whatever relays and peers send: at most 16 links, at most 8 initiated by us and those to larger ids, none to ourselves, and every connection ever made is either current or closed |
| MeshInvariant.RepeatedPriorityLeaks | src/client/webrtc.ts:188-205 | a priority list that repeats a node would open two connections and lose one |
| MeshEffects.ConnectsIfFree | src/client/webrtc.ts:208-217 | a connection is opened to exactly the known nodes of larger id without a link or a pending retry, below eight links, with a fresh session under the node's key |
| MeshEffects.JoinEffect | src/client/webrtc.ts:132-143 | a JOIN makes its node known under its key at the latest time and connects if nothing is in the way |
| MeshEffects.HeartbeatEffect | src/client/webrtc.ts:144-151 | a HEARTBEAT does so for a known peer only, and keeps its key |
| MeshEffects.IntroductionEffect | src/client/webrtc.ts:571-588 | an introduction counts only for an unknown node |
| MeshEffects.RetryEffect | src/client/webrtc.ts:233-236 | a retry connects exactly if nothing is in the way |
| MeshEffects.SlotsEffect | src/client/webrtc.ts:188-205 | free slots go to exactly the best ranked nodes that nothing is in the way of, as many as fit below eight links; all other links stay |
| MeshEffects.LeaveEffect | src/client/webrtc.ts:152-168 | a LEAVE removes the node unless it is older than what was seen of it or an open channel proves it wrong |
| MeshEffects.PruneEffect | src/client/webrtc.ts:618-630 | exactly the peers last seen longer ago than the time to live go, unless an open channel shows them alive |
| MeshEffects.ShutdownEffect | src/client/webrtc.ts:632-637 | after the stop all links are closed and nothing else changed |
| MeshEffects.ArrivalEffect | src/client/webrtc.ts:336-346 | a signal is taken up exactly if it is for us and from a known peer under its key |
| MeshEffects.OfferEffect | src/client/webrtc.ts:354-382 | an offer is answered exactly if there is no link and room for one, or it is of another session, strictly newer, and does not meet our own offer still under way |
| MeshEffects.ReplyEffect | src/client/webrtc.ts:403-434 | a reply is taken exactly once, by the link of its session, and at most 64 early candidates wait |
| MeshEffects.DecryptedEffect | src/client/webrtc.ts:348-434 | a signal is handled once for each time it was taken up, as an offer or as a reply |
| MeshEffects.ConnectionEffects | src/client/webrtc.ts:384-456 | a remote description releases the waiting candidates, and an open channel ends the backoff |
| MeshEffects.FailureEffect | src/client/webrtc.ts:219-228 | a failure drops the link and leaves the node alone for a share of a delay that doubles from 4 to 60 seconds |
| MeshEffects.StaleConnection | src/client/webrtc.ts:498-507 | the events of a connection that is no longer its node's change nothing |
| MeshRaces.KnownUnlessOrphaned | src/client/webrtc.ts:336-381 | a step keeps every link's node among the peers if and only if it does not answer an offer whose sender has gone, with room for a link |
| MeshRaces.AlwaysKnownIffNoneOrphaned | src/client/webrtc.ts:336-381 | and so for whole runs |
| MeshRaces.SilentUnlessRevived | src/client/webrtc.ts:348-381 | a step leaves a stopped mesh without links if and only if it does not answer an offer |
| MeshRaces.AlwaysSilentIffNoneRevived | src/client/webrtc.ts:348-381 | and so for whole runs |
| MeshRaces.LinkOutlivesPeer | src/client/webrtc.ts:340-381 | a peer removed between the arrival of its offer and the decryption gets a link |
| MeshRaces.LinkAfterShutdown | src/client/webrtc.ts:348-381 | a mesh stopped in between opens a link |
| MeshTable.WaitInRange | src/client/webrtc.ts:219-228 | whatever is drawn, a failed node waits for at least half of its delay and at most all of it |
| MeshObject.Mesh.constructor | src/client/webrtc.ts:109-126 | a new mesh is empty |
| MeshObject.Mesh.CreateLink | src/client/webrtc.ts:246-291 | enters a new connection under its node |
| MeshObject.Mesh.Close | src/client/webrtc.ts:522-525 | drops the node's link, if any |
| MeshObject.Mesh.CloseIfCurrent | src/client/webrtc.ts:506-520 | a connection that is no longer its node's changes nothing; otherwise exactly it goes, and every other connection stays held |
| MeshObject.Mesh.Connect | src/client/webrtc.ts:314-318 | initiates to a known peer |
| MeshObject.Mesh.Fill | src/client/webrtc.ts:188-205 | initiates to the selected targets in turn |
| MeshObject.Mesh.FindTargets | src/client/webrtc.ts:190-203 | selects the best waiting peers with larger ids |
| MeshObject.Mesh.Prioritize | src/client/webrtc.ts:182-185 | sets the order and fills the slots |
| MeshObject.Mesh.ConnectIfRoom | src/client/webrtc.ts:208-217 | initiates to one node if nothing forbids it |
| MeshObject.Mesh.Joined | src/client/webrtc.ts:132-143 | a JOIN makes a peer known |
| MeshObject.Mesh.Beat | src/client/webrtc.ts:144-151 | a HEARTBEAT refreshes a peer |
| MeshObject.Mesh.Left | src/client/webrtc.ts:152-168 | a LEAVE counts only if it is news and no open channel contradicts it |
| MeshObject.Mesh.Forget | src/client/webrtc.ts:609-615 | removes a peer with its link and its backoff |
| MeshObject.Mesh.HandleOffer | src/client/webrtc.ts:354-382 | an offer is answered, its session and time becoming the link's, exactly if there is no link and fewer than 16 are held, or it is of another session, strictly newer, and the present link is not our own still connecting; otherwise nothing changes |
| MeshObject.Mesh.HandleReply | src/client/webrtc.ts:403-434 | takes a reply of the live session once |
| MeshObject.Mesh.Receive | src/client/webrtc.ts:336-348 | passes on only signals for us from a known peer under its key, each copy separately |
| MeshObject.Mesh.Process | src/client/webrtc.ts:348-434 | handles a decrypted signal |
| MeshObject.Mesh.Fail | src/client/webrtc.ts:219-228 | a failed connection is dropped, and its node backs off for a random share of a delay that doubles from 4 s to 60 s |
| MeshObject.Mesh.ChannelOpened | src/client/webrtc.ts:450-456 | an opened channel resets the backoff |
| MeshObject.Mesh.PruneStale | src/client/webrtc.ts:618-630 | deleting while iterating removes exactly the stale peers |
| MeshObject.Mesh.Stop | src/client/webrtc.ts:632-637 | closes every link |
| CanonicalJson.ParseQuoted | src/shared/crypto.ts:74 | unquoting undoes quoting, whatever follows |
| CanonicalJson.ParsePrinted | src/shared/crypto.ts:68-76 | a parser undoes the printer on every text that goes on with a delimiter |
| CanonicalMeaning.NormIffSame | src/shared/crypto.ts:68-76 | normal forms are equal exactly for values of the same content |
| CanonicalMeaning.PrintOfNorm | src/shared/crypto.ts:71-75 | normalizing does not change the text |
| CanonicalMeaning.SameTextIffSameContent | src/shared/crypto.ts:62-67 | two values have the same text exactly when they have the same content |
| CanonicalMeaning.PlainArraysAreFaithful | src/shared/crypto.ts:70 | without `undefined` in arrays, equal texts of arrays mean equal lengths and equal texts of the items |
| CanonicalMeaning.UndefinedItemIsLost | src/shared/crypto.ts:70 | an array of one `undefined` prints like the empty array |
| CanonicalMeaning.KeysRise | src/shared/crypto.ts:71-75 | an object is printed with exactly its defined fields, keys rising in code-unit order |
| CanonicalMeaning.EscapesByKind | src/shared/crypto.ts:74 | which code units stand for themselves, behind a backslash as a letter or as a number, and that surrogates stand as a pair exactly in their order |
| CanonicalMeaning.KnownQuotes | src/shared/crypto.ts:74 | the letters and the hexadecimal form of each kind of escape, and what is not escaped |
| CanonicalMeaning.KnownText | src/shared/crypto.ts:68-76 | the exact text of an object with an array, an undefined field and keys out of order |
| Base64.OctetsOfSextets | src/shared/crypto.ts:43-56 | regrouping bits to six and back loses nothing |
| Base64.EncodeIsUrlLetters | src/shared/crypto.ts:43-47 | the encoding uses the url-safe alphabet without padding |
| Base64.AlphabetIsUrl | src/shared/crypto.ts:43-47 | letter by letter, the alphabet is that of table 2 of RFC 4648 |
| Base64.SameBits | src/shared/crypto.ts:43-47 | a group holds the bits of its bytes, filled up with zeros |
| Base64.DecodeOfEncode | src/shared/crypto.ts:43-56 | decoding undoes encoding for every byte string |
| Base64.DecodeAccepts | src/shared/crypto.ts:49-56 | of texts without white space and padding exactly those are decoded that consist of letters of either alphabet and leave no single letter over |
| Base64.PaddingFillsTheGroup | src/shared/crypto.ts:51-52 | padding that does not fill its group is malformed |
| Base64.DecodeInto | src/shared/crypto.ts:49-56 | fills a buffer with exactly the decoded bytes, or reports malformed text |
| Base64.Fill | src/shared/crypto.ts:53-55 | copies every unit into the buffer |
| TransferSafety.AssembledFits | src/client/files.ts:211-223 | what is assembled is no more than what is held |
| TransferSafety.MetaKeeps | src/client/files.ts:154-174 | metadata, repeated or malformed, keeps the safety invariant |
| TransferSafety.ChunkKeeps | src/client/files.ts:175-200 | any chunk message keeps it |
| TransferSafety.StepKeeps | src/client/files.ts:104-231 | every step keeps it |
| TransferSafety.HostileRunsAreSafe | src/client/files.ts:188-230 | whatever messages come, resolved bytes have the requested content id, and chunks held never exceed the bytes counted nor 25 MiB |
| TransferSafety.OutcomesAreFinal | src/client/files.ts:104-137 | a settled transfer keeps its outcome |
| TransferEffects.StrangersAreIgnored | src/client/files.ts:155-203 | a message about some content from anyone but the peer it was asked of changes nothing |
| TransferEffects.OthersAreUntouched | src/client/files.ts:148-209 | a message touches no other transfer |
| TransferEffects.ErrorFails | src/client/files.ts:201-205 | an error of the serving peer settles an unsettled transfer as failed by the peer |
| TransferEffects.MetaEffect | src/client/files.ts:154-174 | metadata fails the transfer unless it announces at most 25 MiB and 1600 chunks; it starts the chunks over but not the counters, and finishes an empty file |
| TransferEffects.ChunkEffect | src/client/files.ts:175-200 | a chunk is passed over, fails the transfer as undecodable, longer than 16 KiB or more than announced, or is counted and held at its index; the last one announced finishes the transfer |
| TransferEffects.FinishJoins | src/client/files.ts:211-224 | finishing joins the chunks in order, or fails at a hole |
| TransferEffects.HashEffect | src/client/files.ts:224-230 | a hash settles its transfer once, with the bytes exactly if they are the ones asked for |
| TransferEffects.RequestEffect | src/client/files.ts:104-130 | a request starts a transfer that has heard nothing, unless one is under way; if it cannot be sent the transfer has failed |
| TransferEffects.EndEffects | src/client/files.ts:118-136 | a timeout fails and forgets a transfer, and a settled one is forgotten |
| TransferDelivery.FeedOnTrack | src/client/files.ts:148-199 | after metadata and any chunks, exactly those chunks are held and nothing has failed |
| TransferDelivery.DeliveryYieldsTheFile | src/client/files.ts:148-262 | metadata and then all chunks, in any order with duplicates, resolve to exactly the served bytes |
| TransferEffects.RequestsAnswered | src/client/files.ts:234-260 | a request is answered exactly if it names a content id of 64 lower-case hexadecimal digits: with an error if nothing is held, and otherwise with the size, the number of 16 KiB pieces, and each of them |
| TransferDelivery.ServedIsFed | src/client/files.ts:241-260 | the server sends exactly those messages |
| TransferRepeat.SecondMetaIsHarmlessIffEarly | src/client/files.ts:154-199 | metadata, honest chunks but not all, metadata again, then every honest chunk in any order: the file arrives if and only if the second metadata came before the first chunk, and otherwise the transfer fails |
| TransferRepeat.SecondMetaAfterTheLastChunk | src/client/files.ts:154-230 | after all chunks, metadata again is harmless if and only if no chunk follows |
| TransferRepeat.EmptyFileAnnouncedTwice | src/client/files.ts:154-174 | a file without chunks arrives although it is announced twice |
| TransferRepeat.TwoChunksAnnouncedTwice | src/client/files.ts:169-199 | metadata, chunk 0, metadata, chunk 1 of an honest server end in a missing chunk |
| FileServiceObject.AssembleBytes | src/client/files.ts:211-223 | joins the chunks in one buffer, or fails at the first hole |
| FileServiceObject.CopyInto | src/client/files.ts:221 | writes a chunk at its offset and nothing else |
| FileServiceObject.FileService.constructor | src/client/files.ts:48-57 | a new service has no transfers |
| FileServiceObject.FileService.SettleWith | src/client/files.ts:36-37 | a promise is settled once |
| FileServiceObject.FileService.FinishTransfer | src/client/files.ts:211-230 | assembles and sends the bytes to be hashed |
| FileServiceObject.FileService.HandleMeta | src/client/files.ts:154-174 | takes metadata from the serving peer only, within the limits |
| FileServiceObject.FileService.HandleChunk | src/client/files.ts:175-200 | takes each index once, within the limits |
| FileServiceObject.FileService.HandleError | src/client/files.ts:201-205 | an error of the serving peer rejects the transfer if it is unsettled, and anyone else's changes nothing |
| FileServiceObject.FileService.HandleHashed | src/client/files.ts:224-230 | resolves only bytes with the requested content id |
| FileServiceObject.FileService.RequestFrom | src/client/files.ts:104-130 | starts at most one transfer per content id |
| FileServiceObject.FileService.HandleTimeout | src/client/files.ts:118-121 | a transfer nobody feeds is rejected and forgotten |
| FileServiceObject.FileService.CleanUp | src/client/files.ts:130-136 | a settled transfer is forgotten |
| FileServiceObject.FileService.Serve | src/client/files.ts:234-260 | sends metadata and the chunks in turn, and stops early exactly when the channel is gone or a send fails |
| ProofOfWork.LeadingZeroBits | src/shared/crypto.ts:310-323 | counts the leading zero bits |
| ProofOfWork.PowIsNumericBound | src/shared/crypto.ts:325-327 | the work is done exactly when the id, read as a number, is below two to the remaining bits |
| ProofOfWork.OnlyHexCounts | src/shared/crypto.ts:314 | nothing from the first non-hexadecimal character on counts |
| ProofOfWork.NibbleIsPosition | src/shared/crypto.ts:313 | a digit's value is its position among the sixteen hexadecimal digits, in either case |
| ProofOfWork.HexIsHex | src/shared/crypto.ts:313-314 | hexadecimal are exactly the strings of these digits |

## Left out

- ECDSA, ECDH, AES-GCM and SHA-256: signatures, decryption and hashes are parameters.
- WebSocket, HTTP, WebRTC, IndexedDB and timers as such: only the step that each callback performs on the state.
- `Reputation`, `LwwMap`, relay hints and `normalizeRelayUrl`, invite bundles, profiles and the user interface.
- Numbers of untrusted messages: sequence numbers, Lamport times, versions and clock times are integers; the size, count and index fields of file messages are arbitrary reals or no number at all.
- Strings are compared by character, not by UTF-16 code unit, except in the canonical text, where code units are modelled exactly.
- Ids are taken to be non-empty: the branches that treat an empty id like a missing one are not modelled.
- Values with a `toJSON` method, functions, symbols and big integers inside canonical JSON.
- The counters that `sweep` and `stats` return, and the fan-out to subscriptions.
- Signing: an entry is appended, signed and then saved; an unsigned copy that leaves in between is refused by every receiver, so signing is one step with the append.
- Gossip.ForwardKeepsInv: the log is saved as it is when the entries are forwarded, which may hold more than the snapshot taken when they were merged.
- Gossip.FloodConverges: the mesh is fixed, its links lose nothing, and frames stay under the 512 KiB cap; sync requests are not part of a flood (`AntiEntropy` covers them).
- NameService.SlotIgnoresOthers: a merge takes effect in the order of the clock readings, although the program reads the clock before it awaits the signature check.
- NameConvergence.AgreeIffNewestDecides: assumes that a signature identifies the signed record.
- NameConvergence.WinsAreBounded: the operations of a replica are in the order of their clock readings.
- RateLimit.WindowBound: exact in thousandths of a token and whole milliseconds; floating-point rounding is not modelled.
- Discovery.ComparatorIsExact: scores are real numbers; floating-point rounding is not modelled.
- Discovery.RankingIsFixedIffConsistent: the sort is a stable insertion sort; what JavaScript's makes of an inconsistent comparison is its own affair.
- CandidateFeed.SameDeliveriesSameRanking: a JOIN is observed as it is delivered, although the program first checks its chain and may observe something else meanwhile, and an event of a banned node or a refused JOIN is sighted but not observed; `CandidateHistory` covers every order of observations and sightings.
- MeshInvariant.StepKeeps: retry timers may fire at any time, which includes the times the program sets; nicknames, rights and latency hints of peers are not modelled.
- FileServiceObject.FileService.Serve: waiting for the channel's buffer to drain is not modelled; it changes when, not what, is sent.
- The local blob cache and the choice among providers in `fetchBlob`.
