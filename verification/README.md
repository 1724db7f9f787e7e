# A verified model of the distributed key-value store

The system is a set of plain `kvserver` nodes behind a `kvrouter`. A node is a lock-striped in-memory map served by
poll-loop reactors; the router places keys with a consistent hash ring, writes to every live replica of a key, reads
from the first live one, and keeps a failure table fed by heartbeats and by failed exchanges. This project models that
logic in Dafny and proves what it keeps over every run.

Two results join the pieces. `WholeSystem.RunPipeline` is about bytes and objects: a router is started, its ring object
is built node by node, and a client's pipeline, cut up in any way, goes through the parser, the routing loops, the
exchanges with the backends and back; as long as fewer nodes fail than a key has replicas, the client gets byte for byte
what one map answers. `Cluster.ClusterIsOneMap` is about any number of router threads, interleaved step by step on the
same ring. `RouterSteps.RoutingContinues` connects them: the loops are runs of the step machine.

| module | what it models |
|---|---|
| `KvSpec`, `Answers` | requests, responses and what they do to one map; and what one map answers, said without it: by the last earlier write of the key |
| `Failover`, `History`, `FailoverHistory` | replication and failover as a step machine: router threads part way through their preference lists, a heartbeat thread holding a ping result it has not recorded, crashes and restarts between any two steps; every step appends an event to a log |
| `Linearizability` | what it means for a log to be a history of one map, and why a request takes effect where a node first performs it |
| `CrashStop`, `FaultTolerance`, `PrimaryOrder`, `Staleness`, `StaleRuns`, `Divergence`, `Placement` | theorems about all runs of that machine, and runs that show their conditions are needed |
| `Routing`, `RouterSteps` | what the router's loops compute for every fate of their exchanges, and the proof that they are runs of the step machine |
| `RouterLoop`, `RouterClient` | the router as imperative code, down to bytes: ring object, failure table, connection cache, the two loops, and a client's connection |
| `Clockwise`, `HashRing`, `RingObject` | the ring: clockwise order, owners, preference lists, membership changes, and the object with its loops |
| `HashArithmetic` | FNV-1a and the MurmurHash3 finalizer modulo 2^64 |
| `Wire`, `Chunking`, `RoundTrip`, `Grammar`, `Parsers` | the printers and the two incremental parsers, as functions of the buffer and as objects; the grammar they read and print, over bytes |
| `Server`, `ReadBack`, `ReactorLoop`, `PollLoop` | a server connection from bytes to bytes, what its client can read back, the drain and read loops, and the pass over the poll set |
| `Ledger`, `ReactorRun` | all clients of a reactor over any number of passes, by what each of them delivered; one turn of the `run` loop on its objects |
| `Handoff` | the accept thread, the self-pipe and the reactors, as a step machine |
| `StripeLocks`, `StripedStore` | the sixteen-shard store at lock and counter granularity, and as an object |
| `Deployment`, `Cluster` | what a deployed ring gives the failover machine, and their theorems put together |
| `WholeSystem` | one client's bytes through router, ring, failover and backends, and back |

Strings stand for byte strings. System calls, the network and thread scheduling appear as parameters and as arbitrary
interleavings: how reads cut up a stream, which exchange fails and whether the backend had applied the request, what a
ping reports, which thread moves next. Each atomic operation is one sequentially consistent step.

## Assumptions the theorems name

- Crash-stop (`CrashStop`): an exchange or a ping fails only on a crashed node, and crashed nodes stay down. A node may
  perform a request, even show its effect to another client, and crash before its reply leaves. `Anything` also allows
  restarts with an empty store, exchanges that fail on healthy nodes, replies lost after the request was performed, and
  healthy nodes that miss a ping.
- No overlap (`WriterAlone`): while a key is being written no other request on it is in progress. `OneWriter` only keeps
  writers of a key apart. `Divergence.DisciplineNeeded` says exactly when crash-stop runs are linearizable: under
  `WriterAlone`, or when nothing is replicated. `OneWriter` is enough for replicas to agree on quiet keys.
- Disjoint positions (`Disjoint`): virtual nodes of different nodes do not hash to the same position. The ring object's
  `Valid()` says so of its nodes; `AddNode` and `RemoveNode` say exactly when they keep it.
- `GetNodes` ends only if enough nodes still own positions (`Ends`). That is so after every orderly history of joins and
  leaves; a node id given twice on the command line violates it.
- The drain loops return if and only if what is behind the last complete message has an LF or at most 265 bytes
  (`LastCommandFits`, `ReadsFit`); otherwise the code answers the overlong line with the same error forever. Methods that
  drain require exactly that, because Dafny methods must return.

## Where the code and its documentation differ

The model follows the code.

- src/common/protocol.hpp:44-47 says that on an error the offending bytes are dropped. The overlong-line error drops
  nothing (src/common/protocol.cpp:108-114), which is why chunking independence needs short lines; the condition is exact.
- docs/PROTOCOL.md:29 restricts key bytes to VCHAR. The code accepts every byte above 0x20.
- docs/REPLICATION.md:23-26 says any live replica sees the latest value. That needs writes that overlap no other request on
  their key.
- src/server/kv_store.hpp:57-58 calls the size exact. It is, except while a writer is between its map change and its counter
  change.
- An error message that ends in CR does not survive the response parser, and a client can make the server send one: a word
  followed by two CRs and an LF. `ReadBack` says exactly which clients read their answers back.

## Model

| member | source | states |
|---|---|---|
| `WholeSystem.RunPipeline` | src/router/router.cpp:151-190 | the whole system, from objects and bytes: for every deployable ring, every pipeline of valid requests cut up in any way and every fate of the exchanges, if fewer nodes end up given up than a key has replicas, the client is sent exactly one map's responses, each the one the last earlier write of its key in the pipeline calls for; the router's parser ends empty, the surviving replicas hold what that map holds, and any cutting of the answer is read back as those responses |
| `WholeSystem.RunCluster` | src/router/router.cpp:151-190 | the same for arbitrary bytes, malformed commands included: what is sent, what the parser keeps and what the surviving replicas hold is what a single server with one empty store makes of the same reads |
| `WholeSystem.ClusterIsOneServer` | src/router/router.cpp:111-190 | the same of the specified outcome, for every placement a deployed ring gives |
| `WholeSystem.AllHandledIsOneMap` | src/router/router.cpp:163-186 | handling any items one after another is a crash-stop run of the step machine whose history stands for the one map, and the encoded answers are that map's |
| `WholeSystem.RoutedIsOneMap` | src/router/router.cpp:111-149 | routing one request, whatever its exchanges' fates, continues that run, and its answer is the one map's, while fewer nodes are given up than replicas exist |
| `Cluster.ClusterIsOneMap` | src/router/router.cpp:111-149 | ring and failover machine together, any number of threads: for every ring that can be deployed and every crash-stop run in which fewer nodes crash than a key has replicas and a write overlaps no other request on its key, no answer is an error, the history is linearizable in an order in which every answer is what the last earlier write of its key calls for, and every surviving replica of a key not being written holds exactly what the key's last write left |
| `Deployment.ClusterIsValid` | src/router/router.cpp:63-72 | a ring of distinct nodes with disjoint positions gives every key a preference list of distinct nodes, exactly min(max(1, factor), node count) long |
| `Deployment.KeyIsPlaced` | src/common/hash_ring.cpp:72-96 | one key's list on that ring: one node for factor 0 or 1, as many as the factor up to the node count, and no more; distinct, all of them nodes, beginning with the key's owner |
| `Deployment.LabelsAreDistinct` | src/common/hash_ring.cpp:46-50 | labels of virtual nodes are equal if and only if node and index are, whatever the ids |
| `Deployment.LabelOf` | src/common/hash_ring.cpp:46-50 | a label is the id, a hash sign and the shortest digits of the index |
| `Deployment.PositionsAre` | src/common/hash_ring.cpp:46-59 | a node's positions are the hashes of its labels from 0 up to the number of virtual nodes |
| `Deployment.JoinClaims` | src/common/hash_ring.cpp:46-52 | a node that joins owns every position of its labels, even ones others had; all other entries stay |
| `Deployment.InjectiveIsDeployable` | src/common/hash_ring.cpp:46-52 | with a hash that never collides every non-empty list of distinct nodes is deployable |
| `Deployment.ErrorNamesTheList` | src/router/router.cpp:54-59 | the error names, in the shortest digits, how many replicas the list has |
| `Cluster.ClusterPlacement` | src/router/router.cpp:111-128 | under any failures, the nodes holding a key are in its preference list and at most as many as it has replicas |
| `Cluster.GrowthIsGentle` | src/common/hash_ring.cpp:46-52 | when a node joins, at most one replica of any key leaves, and only the new node joins the list |
| `CrashStop.CrashStopRefinement` | src/router/router.cpp:111-149 | every crash-stop run without overlap on a written key is linearizable, in the order of first performances; at every moment each surviving replica that no write in progress has yet to reach agrees with the linearized map, so all survivors do when the key is not being written |
| `CrashStop.QuietReplicasAgree` | src/router/router.cpp:111-132 | one writer per key suffices for agreement: in every crash-stop run, however reads overlap, all surviving replicas of a key not being written hold what the performed writes leave |
| `CrashStop.OpSuspicionStep` | src/router/router.cpp:117-131 | every step keeps: a replica passed over before anyone performed the request, or about to be marked down, has crashed |
| `CrashStop.ErrorIsDeserved` | src/router/router.cpp:130-131 | the no-live-replica answer is given only when the whole preference list has crashed |
| `CrashStop.PointIsLegal` | src/router/router.cpp:121-123 | where a request is first performed, its response is the answer of the one map at that moment |
| `CrashStop.AgreementStep` | src/router/router.cpp:111-132 | every step keeps: replicas a writer has not left behind agree with the one map, at every key |
| `FaultTolerance.FewCrashesAreInvisible` | src/router/router.cpp:117-130 | if fewer nodes crash than every preference list is long, no response in the run is the no-live-replica error, however requests overlap |
| `FaultTolerance.TotalCrashIsVisible` | src/router/router.cpp:134-149 | a request invoked after its whole preference list crashed can only be answered with the error |
| `FaultTolerance.CrashedNodeIsMarkedUpOnce` | src/router/failure_detector.cpp:36-72 | a crash-stop node is marked up at most once after its crash, by recording a ping it answered before it, with no other ping in between |
| `PrimaryOrder.FaultFreeLinearizable` | src/router/router.cpp:111-149 | without failures every interleaving is linearizable with no restriction on overlap, ordered by the primary's performances, and every first performance is by the key's primary |
| `PrimaryOrder.SingleReplicaLinearizable` | src/router/router.cpp:111-149 | with one replica per key every crash-stop run is linearizable with no restriction on overlap, runs in which the node performs a write, shows it and crashes before replying included |
| `Staleness.StaleReadHasAReason` | src/router/router.cpp:134-149 | with restarts, wrong suspicions and one writer per key: a read that returns less than the last acknowledged write was served by a node that restarted after that write, or that missed it and was marked up again before the read |
| `StaleRuns.StaleAfterRestart` | docs/REPLICATION.md:160-164 | the first reason occurs alone: for every key a run without overlap, in which nobody is ever marked up, ends in a stale read after a restart |
| `StaleRuns.StaleAfterMiss` | docs/REPLICATION.md:28-34 | the second reason occurs alone: for every replicated key a run without overlap, in which nobody restarts, ends in a stale read after a missed write and a successful ping |
| `Staleness.FullWriteHeals` | src/router/router.cpp:117-131 | a write applied by its whole preference list makes all of them hold its value, as long as none of them restarts and no later write begins |
| `Staleness.StoreShows` | src/server/kv_store.cpp:24-42 | what a node holds under a key is exactly the effect of the newest event that touched it: the last write applied there, or nothing after a restart |
| `Staleness.ReadReturnsShown` | src/router/router.cpp:134-149 | in every run, whatever fails and overlaps, a read returns the effect of the last write its node applied to the key, or nothing if the node restarted since or never applied one |
| `Divergence.ConcurrentWritersDiverge` | src/router/router.cpp:117-128 | for every replicated key and any two values there is a failure-free run in which both writes are acknowledged and two live replicas end with different values |
| `Divergence.AgreementIffUnreplicated` | src/router/router.cpp:117-128 | replicas of a key always agree in quiet failure-free states if and only if the key has one replica |
| `Divergence.OverlapAndOneCrash` | src/router/router.cpp:134-149 | for every replicated key: one write, one overlapping read and a crash of the primary give a history that is not linearizable, although writers never overlap |
| `Divergence.DisciplineNeeded` | src/router/router.cpp:111-149 | for each of the three disciplines on overlap: crash-stop runs are all linearizable if and only if nothing overlaps a write of its key or every key has one replica |
| `Divergence.FailedWriteIsSeen` | src/router/router.cpp:124-131 | a run with one replica in which a write is answered with the error and a client has read its value |
| `Placement.HoldersArePreferred` | src/router/router.cpp:111-128 | in every reachable state of every run a node holds a key only if it is in the key's preference list |
| `FailoverHistory.ShapeRun` | src/router/router.cpp:111-149 | in every run each request is first performed at most once, is performed by nobody after its answer, is answered with the first reply that arrived, and with the error exactly when none did |
| `Linearizability.LegalIsLinearizable` | src/router/router.cpp:117-132 | a history in which every first performance gives the one map's answer, and answers are those given there, is linearizable, and the order of first performances is the witness |
| `Linearizability.OrderIsOneMapHistory` | src/router/router.cpp:117-132 | that order, replayed on an empty map, gives every recorded response and ends in the one map |
| `Linearizability.HistoryAnswers` | src/server/worker_reactor.cpp:163-186 | by index and without the map: a history is one of one map if and only if every Get is answered with the value its key's last earlier write set and with NOT_FOUND when that was no Set, every Delete with DELETED exactly when it was a Set, and every Set with OK |
| `Answers.ReplayAnswers` | src/server/worker_reactor.cpp:163-186 | the same of requests run one after another from any store, both directions, and of what is stored at the end |
| `RouterLoop.Router.RouteWrite` | src/router/router.cpp:111-132 | the loop computes the specified outcome for every fate of its exchanges: stores, failure table and answer; every cached connection is between exchanges again |
| `RouterLoop.Router.RouteRead` | src/router/router.cpp:134-149 | the same for reads, which leave every store unchanged and stop at the first reply |
| `RouterLoop.Router.TryReplica` | src/router/router.cpp:118-127 | one turn of either loop: a suspected replica is skipped; otherwise the exchange ends as its fate says, and a failed one marks the replica down and drops the connection |
| `RouterLoop.Router.SendRequest` | src/router/router.cpp:119-123 | an exchange over a cached or new connection: the backend's new store, the parsed reply, and the bytes left on the connection |
| `RouterLoop.Router.Connect` | src/router/router.cpp:97-109 | a cached connection is reused, a new one has nothing on it |
| `RouterLoop.Router.Preference` | src/router/router.cpp:111-112 | the ring object gives a key exactly the preference list the failover machine works with |
| `RouterLoop.BuildRing` | src/router/router.cpp:63-72 | adding the nodes in turn builds their ring |
| `RouterLoop.Router.constructor` | src/router/router.cpp:63-72 | the initial router: a valid ring object that deploys its placement, everybody believed up, empty stores, no cached connections |
| `RouterLoop.RunExchange` | src/common/protocol.cpp:258-284 | the bytes of an exchange on a clean connection: the request is parsed and executed once, its reply is returned, nothing is left |
| `RouterLoop.ExchangeIsExec` | src/router/router.cpp:35-52 | however request and reply are cut up: the backend executes exactly the request, its parser ends empty, the router's parser ends empty, and re-encoding the reply gives the backend's bytes |
| `RouterLoop.FailureDetector.constructor` | src/router/failure_detector.cpp:8-16 | every node starts out believed up |
| `RouterLoop.FailureDetector.IsAlive` | src/router/failure_detector.cpp:30-34 | a node is alive if it is in the table and marked up; unknown nodes are not |
| `RouterLoop.FailureDetector.MarkDown` | src/router/failure_detector.cpp:36-39 | exactly that entry becomes false |
| `RouterLoop.FailureDetector.MarkUp` | src/router/failure_detector.cpp:41-44 | exactly that entry becomes true |
| `RouterLoop.FailureDetector.Sweep` | src/router/failure_detector.cpp:59-72 | a cycle, complete or cut short by the stop flag: the table says of every node pinged what its ping reported, of all others what it said before, and pinging stopped at the first stop |
| `RouterSteps.RoutingContinues` | src/router/router.cpp:111-149 | after every run, under any faults and any discipline on overlap that lets the request begin, an idle thread that runs the loop, with any fates those faults allow, continues that run; it ends in the stores, table and answer the loop computes, and under crash-stop faults exactly the nodes it found failing have crashed |
| `RouterSteps.LoopIsRun` | src/router/router.cpp:117-149 | the same from any position in the preference list |
| `RouterSteps.SweepTellsTheTruth` | src/router/failure_detector.cpp:59-72 | one full sweep with truthful pings and nothing in between makes the table equal the real node states, and changes nothing else |
| `RouterClient.HandleClient` | src/router/router.cpp:151-190 | a whole connection, read by read: returns exactly when the reads fit; every item is answered in order and the parser keeps what is undecided |
| `RouterClient.DrainClient` | src/router/router.cpp:163-186 | the drain loop answers every item of the buffer in order: parse errors and PING itself, everything else by routing; the leftover is the parser's |
| `RouterClient.AnswerClient` | src/router/router.cpp:166-183 | one item: the outcome specified for it |
| `HashRing.PreferenceListFacts` | src/common/hash_ring.cpp:72-96 | a preference list has no repetition, consists of owners, has min(count, owners) entries, begins with the owner of the position, and is a prefix of every longer one |
| `HashRing.PreferenceListIff` | src/common/hash_ring.cpp:72-96 | the list by its positions, both directions: owners without repetition, as many as asked for or all there are, each met going clockwise before every owner not listed up to it; no other list is that |
| `HashRing.RemovalDeletes` | src/common/hash_ring.cpp:54-60 | the full preference list after removing a node is the old list with that node deleted and the order kept |
| `HashRing.AdditionInserts` | src/common/hash_ring.cpp:46-52 | adding is the inverse: deleting the new node from the new list gives the old one, and removing its positions gives the old ring |
| `HashRing.AtMostOneReplaced` | src/common/hash_ring.cpp:54-60 | for every count a membership change replaces at most one replica of a key, by the next node in line |
| `HashRing.AdditionMovesToNewNode` | src/common/hash_ring.cpp:46-52 | adding a node leaves a key's owner unchanged or makes it the new node, even when positions collide |
| `HashRing.RemovalMovesOwnKeys` | src/common/hash_ring.cpp:54-60 | removing a node moves only its own keys |
| `HashRing.RemovalRebuilds` | src/common/hash_ring.cpp:54-60 | removing a node of a ring without coincidences, or one whose positions nobody has, gives exactly the ring of the other nodes |
| `HashRing.OrderIsIrrelevant` | src/common/hash_ring.cpp:46-52 | any order of adding the same nodes gives the same ring |
| `HashRing.EveryNodeOwns` | src/common/hash_ring.cpp:46-52 | with disjoint positions and at least one virtual node, exactly the added nodes own positions |
| `HashRing.CoincidenceLosesNode` | src/common/hash_ring.cpp:54-60 | when two nodes hash to the same positions, removing one takes the other off the ring |
| `HashRing.WalkEndsIff` | src/common/hash_ring.cpp:86-94 | the walk collects `count` distinct owners, within one lap, if and only if there are that many |
| `HashRing.RepeatedIdNeverEnds` | src/common/hash_ring.cpp:72-96 | a node id added twice: the capped count is two, the ring has one owner, and the walk never has two |
| `RingObject.LowerBound` | src/common/hash_ring.cpp:67-68 | the smallest ring position at or after the key's, if there is one |
| `RingObject.WalkClockwise` | src/common/hash_ring.cpp:80-95 | the loop returns exactly the first `count` distinct owners clockwise |
| `RingObject.ConsistentHashRing.constructor` | src/common/hash_ring.cpp:43-44 | an empty ring |
| `RingObject.ConsistentHashRing.AddNode` | src/common/hash_ring.cpp:46-52 | the new ring is the old one with all the node's virtual positions claimed, and the node is appended; a valid ring stays valid if and only if the node is new and its positions are nobody else's |
| `RingObject.ConsistentHashRing.RemoveNode` | src/common/hash_ring.cpp:54-60 | all its virtual positions are gone, whoever owned them, and every entry of the node is erased; a valid ring stays valid if and only if the node was there or its positions were nobody's |
| `RingObject.ConsistentHashRing.GetNode` | src/common/hash_ring.cpp:62-70 | the clockwise owner of the key's position; an error on an empty ring |
| `RingObject.ConsistentHashRing.GetNodes` | src/common/hash_ring.cpp:72-96 | whenever the walk ends, the preference list of min(count, nodes) entries, in the order in which their positions are met, and on a valid ring that of `count`; an error on an empty ring |
| `RingObject.ConsistentHashRing.ValidEnds` | src/common/hash_ring.cpp:86-94 | on a valid ring the walk ends for every count |
| `RingObject.HistoryEnds` | src/common/hash_ring.cpp:46-60 | after every orderly history of joins and leaves the ring is the one its present nodes build, and the walk ends for every count |
| `Clockwise.LapIsUnique` | src/common/hash_ring.cpp:86-94 | there is one clockwise order of a set of positions from a point |
| `Clockwise.NearestIs` | src/common/hash_ring.cpp:62-70 | the position met first is the smallest one at or after the point, and the smallest of all when there is none, and no other is |
| `Clockwise.LapOfSubset` | src/common/hash_ring.cpp:54-60 | the clockwise order of fewer positions is the old order with the missing ones left out |
| `Clockwise.FirstsOfWithout` | src/common/hash_ring.cpp:86-94 | collecting distinct owners commutes with deleting a node |
| `HashArithmetic.Fnv1a` | src/common/hash_ring.cpp:30-37 | the loop over the characters computes the folded and finalized hash |
| `HashArithmetic.HashRecurrence` | src/common/hash_ring.cpp:30-37 | seen through the finalizer's inverse the hash starts at the offset basis 14695981039346656037, and each byte is absorbed by exclusive or and multiplied with 1099511628211 modulo 2^64 |
| `HashArithmetic.EmptyHash` | src/common/hash_ring.cpp:19-37 | the hash of the empty string is 17280346270528514342, and its shard is 6 |
| `HashArithmetic.ShardIs` | src/server/kv_store.cpp:7-13 | a key's shard is its hash modulo 16 |
| `HashArithmetic.FinalizerIsBijective` | src/common/hash_ring.cpp:19-26 | the finalizer is a bijection on 64-bit words: an explicit inverse undoes it on both sides |
| `HashArithmetic.FnvInjectiveInState` | src/common/hash_ring.cpp:32-35 | different states stay different whatever bytes follow |
| `HashArithmetic.SmallMultiples` | src/common/hash_ring.cpp:32-35 | small multiples of the FNV prime and its square are congruent modulo 2^64 only when they are all zero |
| `HashArithmetic.ThreeBytes` | src/common/hash_ring.cpp:32-35 | three bytes absorbed from one state determine the state they lead to |
| `HashArithmetic.NoShortWindowCollision` | src/common/hash_ring.cpp:30-37 | strings of equal length that differ only inside a window of at most three adjacent bytes have equal hashes if and only if they are equal |
| `HashArithmetic.VirtualNodesApart` | src/common/hash_ring.cpp:47-50 | virtual nodes of one node whose indices have equally many digits, at most three, never share a position |
| `Wire.FrameIgnoresRest` | src/common/protocol.cpp:103-183 | a message that is complete in the buffer is read the same whatever follows it |
| `Wire.FrameNeedsOnlyItself` | src/common/protocol.cpp:103-183 | and it is read the same from its own bytes alone |
| `Grammar.RequestGrammar` | src/common/protocol.cpp:103-183 | over bytes and by concatenation, for every outcome: a buffer is read as request r of n bytes if and only if its first n bytes spell r; refused with a message if and only if they are a line that is no command and the message is the one its first word calls for, or a SET whose value is not followed by LF; kept waiting or called too long if and only if its bytes say so |
| `Grammar.ResponseGrammar` | src/common/protocol.cpp:189-256 | the same for responses |
| `Grammar.PrintedRequestIsShortest` | src/common/protocol.cpp:63-80 | a request is printed as a spelling of it, and every other spelling is longer |
| `Grammar.PrintedResponseIsShortest` | src/common/protocol.cpp:82-97 | the same of a sendable response, except that an empty error message keeps its space |
| `Grammar.DecimalIsShortest` | src/common/protocol.cpp:71-72 | no number has digits shorter than the printed ones, nor others as short |
| `RoundTrip.RequestRoundTrip` | src/common/protocol.cpp:63-80 | every valid request, followed by anything, is read back exactly, consuming exactly its bytes |
| `RoundTrip.AcceptedIsValid` | src/common/protocol.cpp:103-183 | the parser accepts only what the grammar allows |
| `RoundTrip.ForwardingIsFaithful` | src/common/protocol.cpp:63-80 | whatever bytes a request was accepted from, its re-encoding is read as the same request with nothing left over |
| `RoundTrip.ResponseRoundTrip` | src/common/protocol.cpp:189-256 | a response is read back exactly if and only if its value is within 1 MiB or its message is one line that does not end in CR |
| `RoundTrip.LengthRoundTrip` | src/common/protocol.cpp:37-51 | a printed length parses back exactly when it is at most 1 MiB |
| `RoundTrip.DecimalDigits` | src/common/protocol.cpp:37-51 | printed numbers consist of digits and have their own value |
| `RoundTrip.TokensJoin` | src/common/protocol.cpp:22-35 | splitting at spaces is undone by joining with spaces, and no token contains one |
| `RoundTrip.PipelinedRequests` | src/common/protocol.cpp:103-183 | any pipeline of valid requests, cut up in any way, is read back as exactly those requests with nothing left |
| `RoundTrip.PipelinedResponses` | src/common/protocol.cpp:189-256 | the same for sendable responses with short first lines |
| `RoundTrip.RequestChunking` | src/common/protocol.cpp:99-183 | for the server's parser: every split of a stream gives the same requests, errors and leftover as feeding it whole, if and only if every LF-terminated command line has at most 265 bytes |
| `RoundTrip.DrainLoopReturns` | src/server/worker_reactor.cpp:131-137 | a drain of a buffer returns if and only if what is behind its last complete message has an LF or at most 265 bytes; draining after each read returns however the stream is cut up if and only if every command line has at most 265 bytes |
| `RoundTrip.LongLineHangs` | src/common/protocol.cpp:108-114 | the input that hangs: any 266 bytes without LF |
| `Chunking.ChunkingIffShortLines` | src/server/worker_reactor.cpp:125-137 | the same for every parser that frames like these |
| `Chunking.DrainReturnsIff` | src/server/worker_reactor.cpp:131-137 | for every such parser: one drain returns if and only if the last line fits |
| `Chunking.FeedReturnsIff` | src/server/worker_reactor.cpp:125-137 | a given sequence of reads, each drained, returns if and only if after each of them the last line fits |
| `Chunking.AlwaysReturnsIff` | src/server/worker_reactor.cpp:125-137 | every cutting of a stream returns if and only if all its lines fit; a byte at a time is the worst |
| `Chunking.AnySplitIsWhole` | src/server/worker_reactor.cpp:125-137 | one split of a stream of short lines gives what the whole gives |
| `Chunking.OneItemPerLineFeed` | src/server/worker_reactor.cpp:131-137 | a drain yields at most one item for each LF in the buffer |
| `Parsers.SplitSpaces` | src/common/protocol.cpp:22-35 | the cursor loop computes the tokens |
| `Parsers.ReadLength` | src/common/protocol.cpp:37-51 | the digit loop computes the length, or fails on a non-digit, an empty or overlong field, or a number over 1 MiB |
| `Parsers.IncrementalParser.constructor` | src/common/protocol.cpp:99-101 | an empty buffer |
| `Parsers.IncrementalParser.Feed` | src/common/protocol.cpp:99-101 | appends to the buffer |
| `Parsers.IncrementalParser.TryParseRequest` | src/common/protocol.cpp:103-183 | status, request, error message and remaining buffer are what the buffer frames as, and over bytes: what is dropped from the buffer spells the request or is refused with the message; an overlong line is an error that drops nothing |
| `Parsers.RequestCallMeans` | src/common/protocol.cpp:103-183 | the two ways of saying what a call did agree |
| `Parsers.IncrementalParser.ParseCommand` | src/common/protocol.cpp:119-182 | the branches on the command name, each with its errors |
| `Parsers.IncrementalParser.ParseSet` | src/common/protocol.cpp:153-177 | the SET branch, including a missing value, a bad length and a missing LF after the value |
| `Parsers.ResponseParser.constructor` | src/common/protocol.cpp:185-187 | an empty buffer |
| `Parsers.ResponseParser.Feed` | src/common/protocol.cpp:185-187 | appends to the buffer |
| `Parsers.ResponseParser.TryParseResponse` | src/common/protocol.cpp:189-256 | status, response, error message and remaining buffer are what the buffer frames as, and over bytes |
| `Parsers.ResponseParser.ParseReply` | src/common/protocol.cpp:203-255 | the branches on the response line |
| `Parsers.ResponseParser.ParseValue` | src/common/protocol.cpp:228-251 | the VALUE branch |
| `Parsers.AwaitResponse` | src/common/protocol.cpp:271-283 | the read loop returns the first complete response, or the exception for a protocol error or a closed connection |
| `Parsers.AwaitedEndsAt` | src/common/protocol.cpp:271-283 | a wait ends at the first read after which the bytes at hand begin with a response, are refused or are too long, or when there is nothing more to read; and with what |
| `Parsers.OneInFlight` | src/common/protocol.cpp:271-283 | with one request in flight, however the reply is cut up, exactly it is returned, all of it has been read, and the parser ends empty |
| `Server.EndToEnd` | src/server/worker_reactor.cpp:117-186 | any pipeline of valid requests, cut up in any way, gets exactly one response per request, in order, each what the last earlier write of its key calls for; the client reads those responses back from any cutting of the answer; stored values stay within the limit |
| `ReadBack.AnswersReadBackIff` | src/server/worker_reactor.cpp:117-186 | for arbitrary bytes in lines that fit: one reply per item is sent, and from any cutting of the answer the client reads exactly those replies if and only if no command name it sent ends in CR |
| `ReadBack.DoubleCrIsBlurred` | src/common/protocol.cpp:179-182 | the family that fails: a word, two CRs and an LF is answered with the word and one CR, and read without it |
| `ReadBack.ItemReply` | src/common/protocol.cpp:103-183 | a command whose name ends in CR is answered with a short error ending in CR, every other one with a sendable short reply |
| `Server.ReadsAreOneFeed` | src/server/worker_reactor.cpp:122-139 | answering after every read or once at the end makes no difference to what is stored, sent or left over |
| `Server.HandledIsSendable` | src/server/worker_reactor.cpp:163-186 | with stored values within 1 MiB, every reply to a valid request can be sent, is not an error, and keeps stored values within the limit |
| `ReactorLoop.HandleRequest` | src/server/worker_reactor.cpp:163-186 | the encoded reply and the new contents are those of one request on one map; SET answers OK, DELETE answers DELETED for a key that is there and NOT_FOUND otherwise, and the bytes are these |
| `ReactorLoop.Answer` | src/server/worker_reactor.cpp:133-136 | one turn of the drain loop |
| `ReactorLoop.DrainParser` | src/server/worker_reactor.cpp:131-138 | whenever the drain loop returns, it leaves exactly the undecided bytes, and the contents and bytes sent are those of handling every item in order |
| `ReactorLoop.ReadChunk` | src/server/worker_reactor.cpp:126-138 | one successful read |
| `ReactorLoop.ServiceConnection` | src/server/worker_reactor.cpp:122-150 | the read loop: contents, buffer, bytes sent and the decision to close, for every sequence of read results |
| `ReactorLoop.ServicedIsReads` | src/server/worker_reactor.cpp:122-150 | servicing is reading the chunks delivered up to a short read, so the end-to-end results apply |
| `ReactorLoop.ServiceReturnsIff` | src/server/worker_reactor.cpp:122-150 | servicing a client returns if and only if after each read its last command fits |
| `PollLoop.WorkerReactor.constructor` | src/server/worker_reactor.cpp:40-50 | the poll set holds the wakeup pipe only |
| `PollLoop.WorkerReactor.AcceptPendingClients` | src/server/worker_reactor.cpp:103-115 | new clients are appended, not ready, with empty parsers; descriptors stay distinct and equal the parser table's keys |
| `PollLoop.WorkerReactor.CloseClient` | src/server/worker_reactor.cpp:155-161 | the last entry takes the closed slot, the parser is gone, and descriptors still equal the table's keys |
| `PollLoop.WorkerReactor.ServiceClient` | src/server/worker_reactor.cpp:117-153 | one visit: contents, parser table and poll set afterwards |
| `PollLoop.WorkerReactor.ServicePass` | src/server/worker_reactor.cpp:82-93 | one pass services every ready client exactly once and no other, although closing swaps entries; the result is that of visiting them one after another |
| `Ledger.EveryClientIsServed` | src/server/worker_reactor.cpp:69-161 | any joins and any passes, whoever is ready in each: there is one sequence of turns in which every client is answered exactly the items its chunks feed to, in order, each with the right reply by the last writes of all clients; it is sent their encodings; the store holds what the last writes left; a descriptor is in the table exactly until a script of its ends in end of file or an error, and its entry is what its bytes leave undecided |
| `Ledger.VisitMeans` | src/server/worker_reactor.cpp:117-153 | one visit, by the read results up to the first that stops: what is handled, sent, kept and closed |
| `Ledger.RepliesAreRight` | src/server/worker_reactor.cpp:133-136 | malformed input is answered with its complaint, every request as the last earlier write of its key calls for, whoever wrote it |
| `ReactorRun.RunOnce` | src/server/worker_reactor.cpp:69-95 | one turn of the loop on the objects extends such a history: the joining clients join, and everyone who was there and is reported ready is visited exactly once |
| `PollLoop.WorkerReactor.Poll` | src/server/worker_reactor.cpp:71-75 | the entries marked ready are those reported, and nothing else changes |
| `PollLoop.SwapRemovedFds` | src/server/worker_reactor.cpp:155-161 | a swap-removal, slot by slot: the last entry takes the closed slot and every other entry stays; the entries from that slot on are exactly those that were behind it |
| `Handoff.NoLostWakeup` | src/server/worker_reactor.cpp:60-67 | in every reachable state a reactor in poll with pending clients can return from it at once, or after the byte the accept thread is about to write, even when a full pipe drops that byte |
| `Handoff.PipesAreBounded` | src/server/worker_reactor.cpp:60-67 | no pipe ever holds more bytes than it can: a full one drops the wake byte |
| `Handoff.WakeupsHaveACause` | src/server/worker_reactor.cpp:97-101 | draining ends with an empty pipe: from then on it holds no more bytes than were meant for the reactor since, so poll reports it only if some were |
| `Handoff.SingleOwnership` | src/server/worker_reactor.cpp:97-115 | every handed-off connection is in exactly one pending list, batch, poll set or closed set, of the reactor its number names |
| `Handoff.HandoffsAreEven` | src/server/server.cpp:36-48 | the numbers of connections handed to any two reactors differ by at most one |
| `Handoff.EveryContinuationReaches` | src/server/worker_reactor.cpp:69-115 | in every continuation: once poll returns with no wake byte about to be written, every handed-off connection is in the poll set or closed before clients are serviced again, and by the time the reactor has taken more steps than reads of 256 bytes to empty its pipe, pending connections and later handoffs, plus three |
| `Handoff.EveryConnectionIsReached` | src/server/worker_reactor.cpp:69-115 | from every reachable state, steps of the reactor and at most one pending wake byte bring any handed-off open connection into its poll set |
| `Handoff.AnnouncedStep` | src/server/worker_reactor.cpp:60-67 | every step keeps: outside drain and swap, pending clients have a byte in the pipe or one about to be written |
| `Handoff.FairStep` | src/server/server.cpp:36-48 | every step keeps ownership, order of acceptance and the round-robin position |
| `StripeLocks.StripedStoreIsOneMap` | src/server/kv_store.cpp:7-44 | for every interleaving at lock and counter granularity the calls are linearizable in an order in which every answer is what the last earlier write of its key calls for, and a key's shard holds what its last write left; the counter is the number of keys less the changes still owed, is never negative, is off by at most 16, and is exact when no writer is between map and counter |
| `StripeLocks.SizeCanLag` | src/server/kv_store.cpp:24-34 | a run in which the counter is 0 while one key is stored |
| `StripeLocks.LockingStep` | src/server/kv_store.cpp:15-42 | every step keeps: a shard's writer is alone in it, and locks are held by exactly the threads inside |
| `StripeLocks.LevelStep` | src/server/kv_store.cpp:24-42 | touching a shard and owing the counter always go together |
| `HashArithmetic.ShardOf` | src/server/kv_store.cpp:7-13 | every key has a shard among the sixteen, so the hash is a valid home for the striped store |
| `StripedStore.KVStore.constructor` | src/server/kv_store.cpp:7-13 | an empty store |
| `StripedStore.KVStore.Get` | src/server/kv_store.cpp:15-22 | the one map's lookup |
| `StripedStore.KVStore.Set` | src/server/kv_store.cpp:24-34 | the one map updated at one key, and the counter with it |
| `StripedStore.KVStore.Remove` | src/server/kv_store.cpp:36-42 | the one map without the key, and whether it was there |
| `StripedStore.KVStore.Size` | src/server/kv_store.cpp:44-44 | the number of keys |

## Left out

- Sockets, `accept`, `read`, `write`, `poll` and `connect` themselves, partial writes included: they are the arbitrary results and chunks above.
- Time: heartbeat intervals, timeouts and sleeps; only the order of steps is kept.
- Descriptor reuse: in `Handoff` connections are named by the order of acceptance, so the moment between closing a descriptor and forgetting its poll entry is not modelled.
- A backend that performs a request after the router has already seen that exchange fail; a failed exchange takes effect before its failure is seen, or never.
- The backends behind `RouterLoop.Router` are the values their stores hold, each exchange handled by the server's specification; that the striped store and the reactors meet it is `ReactorLoop` and `StripedStore`.
- Bytes of several clients at once, and heartbeats between them: `WholeSystem` takes one client; several router threads and the heartbeat thread are interleaved in the step machine, step by step.
- Memory order of the relaxed atomics, and the unsigned type of the size counter, which is shown never to go below zero.
- Balance of the hash distribution and remapping percentages, which are statistics about particular keys.
- `modulo_hash_node`, the benchmark and report tools, the command-line programs, and the thread and socket set-up code.
