# MIT 6.824 labs in Dafny: what the checker, the replicas and the jobs guarantee

This project models the core of the repository and proves what it is for.

* **The linearizability checker** (`src/linearizability`). A just-in-time search with backtracking over a
  doubly linked list of entries, a bitset of chosen operations and a cache of configurations. The model keeps
  the mutable list, the word-level bitset and the hash buckets. Its answer is proved to be the definition of
  linearizability, end to end from any timed multi-key history down to the pointer surgery of the search.
* **The key/value replica** (`src/kvraft`, `src/raft`). The apply loop with its duplicate filter, one Raft
  node with its log seen through the snapshot offset, and the two together: messages, snapshots whose label
  lags behind their contents, installs, crashes and restarts in any order.
* **MapReduce** (`src/mapreduce`). The sequential job is the group-by of everything emitted.
* **The shard master** (`src/shardmaster`). Configurations as a function of the log, whatever order Go walks
  its maps in, and what rebalancing does to the shards.

Layout, from the bottom up: `Sequences`, `Sorting`; `Histories` (models, entries, linearizability),
`SearchTheory` (the search without its data structures), `LinkedEntries`, `Bitset`, `Checker` (the search with
them), `Operations`, `KvModel`, `Ties`, `CheckOperations`, `CheckEvents`; `CommandIds`, `KvServer`, `ExactlyOnce`; `RaftNode` (steps and runs of one
node), `RaftServer` (the same handlers as an object rewriting its log), `RaftQuorum`, `RaftBackoff`, `Replica`;
`MapReduce`; `Rebalancing`, `ShardMaster`.

Handlers are atomic steps. What is random, timed or comes from the network is a parameter: lost requests are a
nondeterministic choice, the hash of a key is any function, map iteration picks any remaining key.

Where the code and what is said about it differ, the model follows the code:

* The comment at `src/linearizability/linearizability.go:53` says that a nil match marks a call; in the code
  a nil match marks a return.
* `Move` hands a shard to a group (`src/shardmaster/common.go:8`), but rebalancing follows every change and
  may take it back (`MoveLasts`, `MoveTakenBack`).
* Committed entries are meant to stay, but an installed snapshot whose last term differs can end below the
  commit index and take some back (`InstallLowersCommit`, `CommittedTakenBack`).
* The snapshot and the Raft state are meant to be saved together (`src/kvraft/server.go:240-242`); installing
  a snapshot saves it beside the old log (`RestartAfterInstall`, `RestartMixesLogs`).
* A refused snapshot sets the leader's term and leader number from the reply, unsaved and without comparing
  (`src/raft/raft.go:645-650`): the term can fall, and node 0 goes on as leader (`StepAdvances`, `StepSavesTerm`,
  `TermTakenBack`).
* A snapshot of which no call was answered is recorded as installed (`KnownAfterSending`, `LostSnapshot`).
* Partitioning is meant to be harmless (`src/linearizability/model.go:24-27`), but the key/value model has no
  partition for events, and the default one mixes keys (`KeysAreMixed`, `OneKeyIsExact`).
* A candidate with a longer log is not always up to date, since nothing keeps terms in a log from falling
  (`ExtensionIsUpToDate`, `LongerLogRefused`).
* A majority of an even cluster is half of it, so two quorums may be disjoint (`QuorumsMeetIffOdd`).
* Every request is meant to take effect once; a write that reaches the log after a later write of the same
  client is lost (`ExactlyOnce`, `LateWriteIsLost`).

## Model

| member | source | states |
|---|---|---|
| `Checker.CheckSingle` | src/linearizability/linearizability.go:167-214 | for every history with one call and one return for each id, in any order, the answer is true if and only if some permutation of the operations respects real-time order and is accepted by every step from the initial state; the search terminates |
| `Checker.Search` | src/linearizability/linearizability.go:176-213 | the loop alone, from its initial state: same answer, with the termination measure (uncached reachable configurations, stack height, distance to the end of the list) |
| `Checker.Linearize` | src/linearizability/linearizability.go:184-193 | caching, pushing and lifting keep links, bitset, buckets, stack and search in step, and leave fewer reachable configurations uncached |
| `Checker.Backtrack` | src/linearizability/linearizability.go:200-210 | popping and unlifting keep them in step, the cache is untouched and the stack is shorter |
| `Checker.CloneWith` | src/linearizability/linearizability.go:184 | the copy has one more member and the bitset in use is unchanged |
| `Checker.CacheContains` | src/linearizability/linearizability.go:133-140 | the bucketed look-up finds an entry exactly when the plain set of (subset, state) pairs holds one with the same subset and an equal state |
| `Checker.CacheInsert` | src/linearizability/linearizability.go:187-188 | adding to a bucket adds exactly that pair to the set |
| `SearchTheory.DeadWithoutCandidates` | src/linearizability/linearizability.go:200-204 | a configuration whose first open return is reached with every open call before it hopeless has no completion |
| `SearchTheory.DeadUpToEqual` | src/linearizability/linearizability.go:133-140 | pruning by a state that is merely equal loses no answer |
| `SearchTheory.InvPush` | src/linearizability/linearizability.go:183-193 | after a push every cached configuration is still on the current path or a dead end |
| `SearchTheory.InvAdvance` | src/linearizability/linearizability.go:194-199 | skipping a refused or cached call keeps the invariant of the search |
| `SearchTheory.TopIsDead` | src/linearizability/linearizability.go:200-204 | when the search must backtrack the current configuration has no completion |
| `SearchTheory.InvPop` | src/linearizability/linearizability.go:204-210 | after a pop every cached configuration is still on the current path or a dead end |
| `SearchTheory.AnswerTrue` | src/linearizability/linearizability.go:176-213 | an empty list means that the stack is a linearization |
| `SearchTheory.AnswerFalse` | src/linearizability/linearizability.go:201-203 | a return with an empty stack means that there is none |
| `SearchTheory.PushShrinks` | src/linearizability/linearizability.go:186-190 | each push uses up one of finitely many reachable configurations |
| `SearchTheory.ReturnIsAhead` | src/linearizability/linearizability.go:176-212 | the return of an operation still to do lies ahead of the current entry |
| `Checker.EntryFacts` | src/linearizability/linearizability.go:180-182 | the current entry has a match exactly when it is a call, its match then holds the output of the same operation, and another entry follows it |
| `Checker.GoodEntry` | src/linearizability/linearizability.go:176-180 | while the list is not empty the current entry is a node of it, never missing, and its id fits the bitset |
| `LinkedEntries.Lift` | src/linearizability/linearizability.go:147-155 | the live list is the old one without the pair, and both nodes still know where they belong, also when they are neighbours or the return is last |
| `LinkedEntries.Unlift` | src/linearizability/linearizability.go:157-165 | the list from before the lift is back, link by link |
| `LinkedEntries.LiftThenUnlift` | src/linearizability/linearizability.go:147-165 | any calls lifted and unlifted last in first out leave every `next` and `prev` as it was |
| `LinkedEntries.MakeLinkedEntries` | src/linearizability/linearizability.go:109-126 | the linked list is the entry sequence, each call matched with the first later return of its id, if there is one |
| `LinkedEntries.InsertBefore` | src/linearizability/linearizability.go:59-70 | all links of the neighbours after the insertion |
| `Bitset.NewBitset` | src/linearizability/bitset.go:8-15 | the empty set, with room for every position |
| `Bitset.Set` | src/linearizability/bitset.go:27-31 | set insertion |
| `Bitset.Clear` | src/linearizability/bitset.go:33-37 | set removal |
| `Bitset.Equals` | src/linearizability/bitset.go:64-74 | true exactly for bitsets of one length that stand for the same set |
| `Bitset.SameMembers` | src/linearizability/bitset.go:56-74 | words of one length that stand for the same set are the same words, so equal sets hash equally |
| `Bitset.Popcnt` | src/linearizability/bitset.go:44-54 | for every word sequence, the cardinality of the set, modulo 2^64 |
| `Bitset.CountOfWord` | src/linearizability/bitset.go:47-51 | the side-by-side sums and the multiplication count the bits of any word |
| `Bitset.Hash` | src/linearizability/bitset.go:56-62 | a function of the words; each bit says whether the number of words with that bit is odd, turned round where the population count has the bit |
| `Operations.MakeEntries` | src/linearizability/linearizability.go:37-49 | a permutation of all calls and returns, sorted by time; nothing is promised about ties |
| `Operations.ArrangedIsWellFormed` | src/linearizability/linearizability.go:37-49 | whatever the times, the entries have one call and one return for each operation |
| `Operations.SameAnswer` | src/linearizability/linearizability.go:37-49 | if the entries are linearizable so are the operations, and conversely when no return has the time of a call |
| `Ties.EveryArrangement` | src/linearizability/linearizability.go:33-48 | every way to break ties gives linearizable entries if and only if the operations are linearizable with a return at the time of a call counted as before it |
| `Ties.SomeArrangement` | src/linearizability/linearizability.go:33-48 | some way to break ties does if and only if the operations are linearizable with it not counted |
| `Ties.NoTiesNoDifference` | src/linearizability/linearizability.go:33-48 | without ties the two are the same |
| `CheckOperations.TieMayFail` | src/linearizability/linearizability.go:33-48 | a concrete history with a tie whose operations are linearizable and one of whose sorted entry lists is not |
| `KvModel.Locality` | src/linearizability/model.go:24-27 | a history is linearizable for the whole store if and only if the sub-history of each key is for the single value |
| `KvModel.Merge` | src/linearizability/models.go:17-28 | orders of the single keys, each in real time, have a common order of everything in real time |
| `KvModel.StoreRunByKey` | src/linearizability/models.go:34-48 | a run of the store is accepted exactly when its part for each key is |
| `CheckOperations.Partition` | src/linearizability/models.go:17-28 | one part for each key that occurs, holding its operations in their order, whatever order the map is walked in |
| `CheckOperations.CheckParts` | src/linearizability/linearizability.go:235-270 | true only if every part is linearizable, false only if some part is not when ties count as before |
| `CheckOperations.CheckKv` | src/linearizability/linearizability.go:229-270 | for every history: a positive answer means that it is linearizable as a whole, a negative one that it is not when ties count as before; without ties within a key the answer is exact; only the empty history waits forever |
| `CheckEvents.Renumber` | src/linearizability/linearizability.go:81-95 | the ids that occur become the numbers from 0 on, each id its own, everything else stays |
| `CheckEvents.ConvertedIsWellFormed` | src/linearizability/linearizability.go:81-107 | renumbered and converted, events with one call and one return for each id are a well-formed history of as many operations |
| `CheckEvents.CheckEvents` | src/linearizability/linearizability.go:272-313 | with the default partition the answer is exact for every such history of events, ids and order as the caller gave them, the empty one included |
| `CheckEvents.OneKeyIsExact` | src/linearizability/models.go:15-50 | for events of one key, linearizable for the single value if and only if for the store |
| `CheckEvents.KeysAreMixed` | src/linearizability/models.go:15-50 | a concrete history of two keys that is linearizable for the store and is rejected, because the model has no partition of events |
| `CommandIds.CommIDInjective` | src/kvraft/server.go:191 | client and number are recovered from the id for numbers from 0 up to 2^32 |
| `CommandIds.CommIDCollides` | src/shardmaster/server.go:227 | at 2^32 two clients share an id |
| `KvServer.KVServer.AddClient` | src/kvraft/server.go:129-132 | the client has a row, the other rows stay, and no client's highest number changes |
| `KvServer.KVServer.Apply` | src/kvraft/server.go:177-221 | one message takes the state to that of the model; a snapshot replaces store and table only, and the commit index becomes the command's if that is higher |
| `KvServer.KVServer.MainProcess` | src/kvraft/server.go:172-233 | the loop is the fold of the model over the messages, and the commit index afterwards is the highest of what it was and of the commands read |
| `KvServer.DeliverIsApplyLog` | src/kvraft/server.go:186-221 | delivering a log from any starting index is applying its commands, and raises the commit index to the last of them |
| `KvServer.SnapshotOverlap` | src/kvraft/server.go:178-218 | a snapshot of the state after k commands installed under any label j up to k, with replay from j, ends in the store and duplicate table of the whole log |
| `KvServer.ApplyRecords` | src/kvraft/server.go:196-216 | after a log every one of its writes is recorded in the table, which only grows |
| `KvServer.ReplayIsIdle` | src/kvraft/server.go:196-216 | replaying recorded writes changes neither store nor table |
| `ExactlyOnce.TableIsMax` | src/kvraft/server.go:196-216 | the table holds the highest write number of each client so far |
| `ExactlyOnce.OnlyFreshWrites` | src/kvraft/server.go:188-218 | on any log the store is that of plain writing of the writes whose number exceeds all earlier ones of their client |
| `ExactlyOnce.ExactlyOnce` | src/kvraft/server.go:188-218 | each write takes effect exactly at its first appearance if and only if first appearances come in the order of their positive numbers |
| `ExactlyOnce.ExactlyOnceStore` | src/kvraft/client.go:107-110 | in issue order the store is that of plain writing of the first appearances |
| `ExactlyOnce.LateWriteIsLost` | src/kvraft/server.go:196-204 | a concrete log in which a write overtaken by a later one has no effect |
| `ExactlyOnce.RunIsAccepted` | src/linearizability/models.go:29-48 | the gets and effective writes of any log are a run of the store's specification, ending in the server's store |
| `ExactlyOnce.RunOfKeyIsAccepted` | src/linearizability/models.go:34-48 | for every log and key they are a run that the checker's model of a key accepts step by step |
| `ExactlyOnce.ResultIsKept` | src/kvraft/server.go:190-193 | what a get recorded is found under its id until the same client and number are recorded again |
| `ExactlyOnce.Clerk.NextSeq` | src/kvraft/client.go:107-110 | each number is positive and above every one drawn before |
| `RaftNode.StepProceeds` | src/raft/raft.go:385-745 | every handler, and every change of leader or term, keeps snapshot index <= commit index <= last index, moves neither boundary nor commit index back, keeps retained committed entries and continues the messages without gap or repeat |
| `RaftNode.StepAdvances` | src/raft/raft.go:334-880 | and moves the term back if and only if it is the refusal of a snapshot with a lower term |
| `RaftNode.AppendAdvances` | src/raft/raft.go:385-546 | the same for AppendEntry, through term adoption, commit and overwriting |
| `RaftNode.InstallAdvances` | src/raft/raft.go:548-623 | the same for a snapshot that agrees with what is committed at its boundary |
| `RaftNode.WriteKeepsCommitted` | src/raft/raft.go:512-543 | overwriting and cutting leave committed entries alone |
| `RaftNode.RunAdvances` | src/raft/raft.go:385-745 | the same between any two points of any run, with candidacies, won elections, timeouts, stepping down and refusals (645-650, 784-880, 1176-1235); the term rises if no refusal is of a lower one |
| `RaftNode.TermTakenBack` | src/raft/raft.go:645-650 | a run from the start in which a leader that has heard of term 5 goes back to term 2 by a late refusal, unsaved, and goes on as leader |
| `RaftNode.LifeOfANode` | src/raft/raft.go:385-745 | what the service receives is the committed prefix in order, each command as the log has it |
| `RaftNode.SnapshotKeepsLog` | src/raft/raft.go:258-308 | compaction keeps the last index, every entry from the new boundary up and the boundary term |
| `RaftNode.RunIsSaved` | src/raft/raft.go:204-224 | over every run without an installed snapshot the disk holds log and boundary, and the term too if no snapshot was refused |
| `RaftNode.StepSavesTerm` | src/raft/raft.go:645-650 | a saved term stays saved if and only if no refusal changes it |
| `RaftNode.RestartRebuildsLog` | src/raft/raft.go:1285-1306 | after any such run a restart gives back the same entries under the same indices, committed up to the snapshot, and the same term if and only if it was saved; it knows no leader, has not voted, and first sends the saved snapshot |
| `RaftNode.RestartAfterInstall` | src/raft/raft.go:548-623 | a crash right after an install finds the same log if and only if nothing was saved before or the old log was that boundary entry alone |
| `RaftNode.RestartMixesLogs` | src/raft/raft.go:615-623 | an elected leader with one entry that comes back with it under a new index |
| `RaftNode.InstallLowersCommit` | src/raft/raft.go:556-613 | the commit index falls if and only if the term is current and the snapshot ends between boundary and commit index with another term |
| `RaftNode.CommittedTakenBack` | src/raft/raft.go:556-613 | a run from the start in which two entries are stored and committed and an installed snapshot takes one back |
| `RaftServer.Raft.AppendEntry` | src/raft/raft.go:385-546 | field by field: an earlier term is refused and changes nothing; otherwise the term is taken over, a leader of a lower one gives way, success if and only if the entry before matches, the entries stored, what stands behind them kept or cut, the commit index, the messages sent, the disk and every part of the reply |
| `RaftServer.AppendIs` | src/raft/raft.go:385-546 | the step and the reply of the model are those |
| `RaftServer.Raft.ConflictTerm` | src/raft/raft.go:434-449 | the term reported for a mismatch: the entry's own, or when that is higher than the leader's, the term of the nearest entry below it with none lower in between |
| `RaftServer.Raft.CommitUpTo` | src/raft/raft.go:463-506 | sends exactly the entries up to the leader's commit index, no further than the matching entry |
| `RaftServer.Raft.StoreEntries` | src/raft/raft.go:511-543 | overwrites entry by entry, appends the rest, and cuts a tail of lower term |
| `RaftServer.ReplyIsTrue` | src/raft/raft.go:428-546 | a reply of success means that the entry before has the leader's term, every entry is in the log under its index, nothing before changed and the commit index is the larger of its own and the capped leader's; any other reply that log and commit index stayed |
| `RaftServer.Raft.Start` | src/raft/raft.go:722-745 | a leader appends the command under its own term, returns its index and records it as its own match index; others change nothing |
| `RaftServer.Raft.CommitAsLeader` | src/raft/raft.go:1064-1099 | the commit index rises to the chosen index or the end of the log, and exactly the entries in between are sent, in order |
| `RaftServer.Raft.Truncate` | src/raft/raft.go:183-197 | the log from the new boundary on, or a lone boundary entry |
| `RaftServer.Raft.TakeSnapshots` | src/raft/raft.go:258-308 | a new boundary is the index below the one given, the log starts there and is saved with the snapshot; a boundary that is not new changes nothing |
| `RaftServer.Raft.InstallSnapshot` | src/raft/raft.go:548-578 | why a request is refused, and otherwise the new state; it panics exactly when it is not refused and names a later index than its data; when index and term are those of the data it takes the install step of the model |
| `RaftServer.Raft.ReadSnapshotPersist` | src/raft/raft.go:580-623 | a newer snapshot replaces log, boundary and commit index, is sent on and is saved beside the saved log; an older one changes nothing |
| `RaftServer.Raft.SendSnapshot` | src/raft/raft.go:625-664 | over five calls, each lost, unanswered or answered: the follower's new state; a later term refuses and is taken over unsaved; an answer founds the recorded match index; without an answer it is recorded all the same |
| `RaftServer.KnownAfterSending` | src/raft/raft.go:630-664 | the follower knows the recorded index if and only if it did before or some call found it in no later term |
| `RaftServer.LostSnapshot` | src/raft/raft.go:634-664 | five lost calls, and a follower with an empty log that does not know the recorded index |
| `RaftServer.Raft.RequestVote` | src/raft/raft.go:334-382 | in a later term, which is taken over and saved, the vote is given if and only if the candidate's last term is higher, or equal with an index no lower, and then the candidate is the leader; in the same term if and only if the node has voted for itself and the last term is higher; an earlier one changes nothing |
| `RaftServer.UpToDateOrder` | src/raft/raft.go:367-373 | of two logs one at least is up to date for the other, transitively, both exactly with equal last term and index |
| `RaftServer.ExtensionIsUpToDate` | src/raft/raft.go:367-373 | a longer log that starts with the node's own is up to date for it if and only if its last term is no lower |
| `RaftServer.LongerLogRefused` | src/raft/raft.go:367-373 | two requests after which a node with a longer log does not get the vote of one whose log it starts with |
| `RaftServer.Raft.CandidateProcess` | src/raft/raft.go:784-880 | a candidacy times out if and only if no notice ends it, otherwise it ends with the first that does: the vote that completes a majority makes it leader, another answer of a later term is taken over and saved, a leader's request just ends it |
| `RaftServer.Raft.FollowerTimeout` | src/raft/raft.go:1219-1225 | a new term, saved, and no leader |
| `RaftServer.Raft.LeaderTimeout` | src/raft/raft.go:1181-1186 | a new term, saved, and still leader |
| `RaftQuorum.ToBeCommitIndex` | src/raft/raft.go:1056-1062 | an index is at most the chosen one exactly when a majority of peers has reached it |
| `RaftQuorum.OddClusterCommit` | src/raft/raft.go:1062 | in an odd cluster it is the largest index that a strict majority has reached |
| `RaftQuorum.CommitHasQuorum` | src/raft/raft.go:833-840 | the peers that reached it are as many as an election needs |
| `RaftQuorum.QuorumsMeetIffOdd` | src/raft/raft.go:1247 | any two quorums share a peer if and only if the cluster is odd |
| `RaftBackoff.MakeTermIndex` | src/raft/raft.go:747-763 | lists exactly the ends of all stretches of equal term, last first |
| `RaftBackoff.BackOff` | src/raft/raft.go:1120-1141 | every rejection lowers the index tried, never below 0, to the place the reply points at |
| `RaftBackoff.Exchange` | src/raft/raft.go:957-1170 | whatever is lost, the exchange with one follower terminates, every index is in bounds, the panic on a negative index is unreachable, the follower's indices are settled again, and a new match index is one up to which the follower holds the leader's entries from a matching one on, or has committed; with every request answered, a follower of no later term and with the same first entry is matched above 0, and no lower than where the exchange started if its last committed entry has the leader's term; a follower of a later term, and no other, makes the leader step down |
| `RaftBackoff.HandleReply` | src/raft/raft.go:998-1161 | the match index a reply leads to, when the exchange is done, when the leader steps down, and where the next request starts |
| `RaftBackoff.Turn` | src/raft/raft.go:998-1161 | each answered request ends the exchange as promised or is followed by one that still can |
| `RaftBackoff.AppendKeepsFounded` | src/raft/raft.go:998-1050 | each reply founds the match index the leader takes from it, and no later request takes that away |
| `Replica.ReadFollows` | src/kvraft/server.go:177-221 | a command takes the server from the committed prefix it holds to the longer of that and the command's index, a snapshot to what the snapshot holds |
| `Replica.ServerFollows` | src/kvraft/server.go:172-233 | after any number of messages the server holds the committed prefix that ends at its position, or a longer one that an installed snapshot brought |
| `Replica.NextKeepsInv` | src/raft/raft.go:258-308 | handlers, late snapshots, installs and crashes keep: messages consecutive and true, and a disk snapshot that holds at least what its label says |
| `Replica.NextIsSaved` | src/raft/raft.go:204-308 | unless a snapshot is installed the disk holds the log at any moment, also after refusals and crashes, so a crash stays recoverable |
| `Replica.ReplicaFollowsLog` | src/kvraft/server.go:172-233 | over every run, crashes included, the server holds store and duplicate filter of exactly the committed commands it read, or of a longer prefix that an installed snapshot brought |
| `Replica.NodeFeedsServer` | src/kvraft/server.go:172-233 | with no assumption on the cluster: over every run without an installed snapshot the server is exactly where the commands it read take it, its commit index is their number, they are as many as are committed and the ones the log still has |
| `Replica.StoreIsSequential` | src/linearizability/models.go:29-48 | that store is what the checker's specification reaches on the gets and effective writes of the prefix |
| `MapReduce.DoMap` | src/mapreduce/common_map.go:97-102 | each partition holds the pairs whose key hashes to it, in order |
| `MapReduce.DoReduce` | src/mapreduce/common_reduce.go:67-113 | one line for each key of the files, keys increasing, reduced from its values in file and emission order |
| `MapReduce.Merge` | src/mapreduce/master_splitmerge.go:14-51 | the outputs as one, keys increasing, for each key the line that occurs last |
| `MapReduce.PipelineIsGroupBy` | src/mapreduce/master_splitmerge.go:14-51 | merged outputs of the reduce tasks are the group-by of everything emitted, whatever the hash and the number of tasks |
| `MapReduce.GroupByUnique` | src/mapreduce/common_reduce.go:90-113 | there is only one such output |
| `MapReduce.LtMeans` | src/mapreduce/common_reduce.go:95 | increasing is the order of strings: a proper beginning, or the smaller character where they first differ |
| `MapReduce.WhereEmitted` | src/mapreduce/common_reduce.go:67-94 | the values of a key are those at exactly the positions where it was emitted, in order |
| `MapReduce.WhereInFiles` | src/mapreduce/common_reduce.go:67-94 | files are read whole and in their order |
| `MapReduce.Sequential` | src/mapreduce/master.go:60-80 | a whole job is the group-by of everything emitted |
| `Rebalancing.GroupIDs` | src/shardmaster/server.go:58-64 | the ids in ascending order, whatever order the map is walked in |
| `Rebalancing.Distribute` | src/shardmaster/server.go:65-77 | the nested counters stay inside the table and compute the closed form |
| `Rebalancing.Rebalance` | src/shardmaster/server.go:52-79 | the new table as a function of the old one and the set of groups |
| `Rebalancing.EveryGroupServed` | src/shardmaster/server.go:65-77 | every group has at least NShards / g shards, exactly that when g divides NShards |
| `Rebalancing.AllServed` | src/shardmaster/server.go:65-77 | every shard is owned by a group if and only if the shards beyond the stretches already were |
| `ShardMaster.FirstThreeGroups` | src/shardmaster/server.go:65-77 | three groups joining at once leave the last shard to group 0 |
| `ShardMaster.MoveLasts` | src/shardmaster/server.go:274-278 | a move survives rebalancing if and only if there are no groups, the shard is beyond the stretches, or the group is the one in place shard / (NShards / g) of the sorted ids (place NShards - 1 for shard 0 with more groups than shards); groups and other shards are as without the move |
| `ShardMaster.MoveTakenBack` | src/shardmaster/server.go:274-278 | two groups join, shard 0 is moved to group 2 and is back with group 1 |
| `ShardMaster.Server.Apply` | src/shardmaster/server.go:214-281 | under any map iteration order the new state is a function of the old one and the command, numbered by place, earlier configurations kept, the commit index the highest seen |
| `ShardMaster.MakeConfig` | src/shardmaster/server.go:243-278 | the next configuration, number one higher |
| `ShardMaster.AddGroups` | src/shardmaster/server.go:255-263 | new groups get their servers, known ones more behind their own, others keep theirs, whatever order the map is walked in |
| `ShardMaster.RemoveGroups` | src/shardmaster/server.go:264-273 | the groups that leave are gone, the others keep their servers; a shard of one that leaves reads -1, the others are unchanged |
| `ShardMaster.LeaveMeans` | src/shardmaster/server.go:264-278 | the next configuration has exactly the groups that stay; without any, the shards of those that left read -1 and the others are unchanged; no shard belongs to a group that left (-1 is nobody) |
| `ShardMaster.JoinConfig` | src/shardmaster/server.go:255-278 | the next configuration has old and new groups, servers joined, and the rebalanced shards |
| `ShardMaster.Replay` | src/shardmaster/server.go:214-281 | any replica that applies a log ends in the same state, every configuration numbered by its place |
| `ShardMaster.ConfigsAreStable` | src/shardmaster/server.go:279 | a stored configuration never changes |
| `ShardMaster.TableIsMax` | src/shardmaster/server.go:237-242 | the table holds the highest change number of each client |
| `ShardMaster.OnlyFreshChanges` | src/shardmaster/server.go:236-279 | the configurations are those of the changes whose number exceeds all earlier ones of their client, applied in order |
| `ShardMaster.AppliedInOrder` | src/shardmaster/server.go:237-242 | each client's changes are applied in the order of their numbers, so no client and number twice |
| `ShardMaster.QueryIsKept` | src/shardmaster/server.go:226-235 | over every log, a query's result under its id is the configuration of its number in the history of that moment, the last one when there is none, until the same client and number ask again |

## Left out

- Election Safety, Log Matching, Leader Completeness and cluster-wide State Machine Safety: the code departs from Figure 2 of the Raft paper (no reset or saving of `votedFor`, conflicting tails only sometimes cut, no term check on commit), so they are not claimed.
- Replica.ReplicaFollowsLog: takes as given that what the node commits agrees with one committed sequence, since that is State Machine Safety (`NodeFeedsServer` does without), and that a crash does not fall between an install and the next save, which `RestartAfterInstall` shows to be harmful.
- RaftBackoff.Exchange: one exchange at a time with a leader that has no snapshot and whose log and term do not change meanwhile; the branches that send a snapshot in between (`SendSnapshot` on its own is modelled) and the match index across concurrent senders are not.
- RaftServer.Raft.SendSnapshot: the leader's saved snapshot is the one its boundary names, which holds outside the short time in which it installs one itself.
- RaftNode.LifeOfANode: installed snapshots agree with committed entries at their boundary; without that the commit index can fall, exactly as `InstallLowersCommit` says.
- RaftServer.Raft.AppendEntry: entries carry commands; a missing command makes the source panic.
- Checker.Linearize: a cache entry holds the words of its bitset as a value, so sharing of the slice with later code is not captured.
- RaftQuorum.ToBeCommitIndex: the majority is computed in integers instead of 32-bit floating point.
- MapReduce.Sequential: files are written once and read back as written; JSON, re-executed tasks, the scheduler and the workers are not modelled.
- ShardMaster.Server.Apply: a move outside the table crashes the source and is excluded; server lists are values, so sharing of their backing arrays is not captured.
- CheckEvents.CheckEvents: every call has returned and no id is used twice; other event histories are not modelled.
- Timeouts, the `kill` flag and the result channels of the checker.
- Timers, channels, goroutines and locks; the leader's and follower's loops beyond the exchange, the commit rule and their timeouts; `nextIndex` as node state.
- The waiting loops of the client-facing handlers, which poll shared fields, and their removal of recorded results.
- `src/labrpc`, `src/labgob`, `src/shardkv`, `src/main` and the test harnesses.
