# Redis 3.0.2: a verified model of its data structures and protocols

Redis is an in-memory key-value server. This project models, in Dafny, the parts of Redis 3.0.2
(`auction/redis-3.0.2/src`) whose correctness is hardest to see from the code, and proves what they promise:

- the hash dictionary with incremental rehashing and the stateless reversed-bit scan (`dict.c`);
- Redis Cluster elections, epochs, slot ownership and slot ranges (`cluster.c`);
- the checksum that guards DUMP payloads (`crc64.c`, `cluster.c`);
- the append-only file: print and load, the write path, and the rewrite protocol between parent and child
  (`aof.c`), and the background job queue (`bio.c`);
- HyperLogLog in its dense and sparse encodings (`hyperloglog.c`);
- the integer set packed in bytes (`intset.c`);
- bit counting, bit search and BITOP with their word-level fast paths (`bitops.c`);
- the key space with expire times and the index of keys by slot (`db.c`).

Objects whose fields the source updates are classes; loops are loops with invariants, proved against
functions that state what they compute; protocols are systems of steps whose invariants are proved for
every run. `dafny verify dfyconfig.toml` checks the whole project.

## How it is put together

| files | content |
|---|---|
| `Basics` | the number of hash slots, and small facts that several modules use |
| `Words` | 64-bit words as bit sequences, least significant first |
| `Octets` | bytes as eight bits, and strings of bytes as rows of bits |
| `DictModel`, `HashDict` | tables and chains as values; the class `Dict`, which stands for a finite map |
| `ScanCursor`, `DictScan`, `ScanCounterexample` | cursor arithmetic; whole scans; which calls and which run break the documented guarantee |
| `Election`, `ElectionCounterexample` | votes, counts and victories; exactly when one epoch can have two winners |
| `ConfigEpochs`, `Slots`, `SlotRanges` | epochs in nodes and messages; the slot table; its text form |
| `Crc64`, `Crc64Check` | table-driven and bit-serial checksum; the DUMP footer; the checksum of a known text |
| `AofLog`, `AofLists`, `AofWrite`, `AofRewrite` | log format and loader; lists; buffers and flush; the rewrite protocol |
| `BackgroundJobs` | the job queue and its worker |
| `HllDense`, `HllSparse`, `HllCount`, `HyperLogLog` | registers, opcodes, sums, and the object |
| `Intset`, `Popcount`, `Bitops`, `Bitop`, `KeySpace` | one component each |

## Where the code and its promises differ

- **Scan.** The comment at `dict.c:774-832` promises that a full scan returns every element present throughout.
  Line 902 counts the expansion bits upwards in normal order, so a call that first sees a shrink by 4 or more
  with a cursor that has a one above a zero between the two masks skips buckets. `GuaranteeFails` is such a run.
  `CompleteIffOnesThenZeros` and, in terms of dictionaries and their keys, `CallCompleteIff` are the exact
  condition on a call; `ScanIsComplete` is the guarantee under it.
- **Election.** `cluster.c:991-993` says that different slaves cannot get the same epoch from an election.
  The count is zeroed at line 2757 and the epoch only advances at line 2817; an answer to the previous
  attempt that arrives in between is counted for the next one. `BothCanWinIff` is the exact condition: two
  replicas that ask for votes in the same new epoch can both win it if and only if the answers they had counted
  before are at least one with an odd number of masters and at least two with an even one.
  `OneWinnerPerEpoch` is the promise for runs in which nobody has such answers. `AnyTwoReplicasCanWin` shows that
  the steps lead there in every cluster with two replicas, and `TwoWinners` is a run with three masters.
- **Corrupted HyperLogLog strings.** The comments at `hyperloglog.c:566-567` and `1042-1043` say that corrupted
  sparse strings are reported. The code looks at the number of registers covered only after the walk, so a
  string with a value beyond the last register has by then been followed out of the register area. `Overruns` is
  the exact condition, in terms of the registers that the string decodes to; surplus zeros alone are refused.
  `ShortestOverrun` has one string of each kind.
- **Deleting a node's slots.** The comment at `cluster.c:3361-3362` says that the number of deleted slots is
  returned; the code returns the number of slots of the cluster, which is the same exactly if the node had them
  all. The model follows the code.
- **Collisions.** The design comment at `cluster.c:1026-1029` says that nodes eventually differ; the bound proved is that
  the node with n greater names moves at most n times.

## Assumptions

- Time, randomness, hash functions, the order of keys and the results of system calls are inputs.
- Elections: the voting masters are fixed and all nodes know their number; nodes do not restart (the last
  vote is not saved when it is given), are not reset, and do not take over without a vote; senders are known nodes.
- The steps of elections leave timing, message delay and whether a master finds a request acceptable free, so what
  is reached by them is reached for some choice of these.
- Epochs: `MastersAreHonest` and `CollisionsEnd` are about runs in which nodes keep their roles and UPDATE messages
  are about nodes that are not replicas; `CollisionsEnd` also excludes failovers and manual epoch changes.
- Claims: each node keeps claiming the same slots with the same epoch, and epochs differ.
- Rewrite: the commands the child writes rebuild the dataset it was forked with; the commands fed have the
  effect of the ones executed; a read from the pipe returns data while there is any.
- HyperLogLog sums are over the reals, and the final estimate is any function of the sum and the zero count.

## Model

| member | source | states |
|---|---|---|
| `HashDict.ChainSearch` | auction/redis-3.0.2/src/dict.c:489-508 | the index found is that of the key in its chain, and when the end is reached the chain does not hold the key |
| `HashDict.NextPower` | auction/redis-3.0.2/src/dict.c:945-955 | the least power of two that is at least 4 and at least the size, or LONG_MAX for sizes from LONG_MAX on |
| `HashDict.Dict.constructor` | auction/redis-3.0.2/src/dict.c:167-189 | a new dictionary stands for the empty map |
| `HashDict.Dict.Expand` | auction/redis-3.0.2/src/dict.c:204-234 | fails exactly while rehashing, when the size is below the number of keys, or when the size would not change; otherwise installs the first table or starts a rehash; the map does not change |
| `HashDict.Dict.MoveChain` | auction/redis-3.0.2/src/dict.c:260-272 | all entries of one bucket reach the second table while the map they form with the rest stays the same |
| `HashDict.Dict.MoveBucket` | auction/redis-3.0.2/src/dict.c:259-274 | one bucket moves, `used` drops by its length, the map is the same and every entry is where its hash puts it |
| `HashDict.Dict.SkipEmpty` | auction/redis-3.0.2/src/dict.c:252-258 | only empty buckets are passed, at most the budget of them, and `rehashidx` stays inside the table: the assertion of the source never fails |
| `HashDict.Dict.Rehash` | auction/redis-3.0.2/src/dict.c:245-288 | the map is unchanged; the rehash ends if and only if at most the steps asked for are left to do with fewer than ten times as many empty buckets before the last; otherwise exactly that many buckets have moved, or exactly ten times as many empty ones been passed, and the others are untouched |
| `HashDict.Dict.RehashStep` | auction/redis-3.0.2/src/dict.c:317-319 | exactly one such step unless safe iterators are open, in which case nothing changes |
| `HashDict.Dict.RehashMilliseconds` | auction/redis-3.0.2/src/dict.c:298-307 | stops early only when the time is up; otherwise the rehash is over after at most as many calls as there are buckets |
| `HashDict.Dict.ExpandIfNeeded` | auction/redis-3.0.2/src/dict.c:923-942 | never fails below the size bound; the first table has 4 buckets, a crowded one starts to grow, any other is left alone |
| `HashDict.Dict.Add` | auction/redis-3.0.2/src/dict.c:322-369 | succeeds if and only if the key is new and is then map insertion, in every state including the middle of a rehash |
| `HashDict.Dict.Find` | auction/redis-3.0.2/src/dict.c:489-508 | returns what the map holds for the key and leaves the map unchanged |
| `HashDict.Dict.Replace` | auction/redis-3.0.2/src/dict.c:375-394 | map update, telling new keys from old |
| `HashDict.Dict.Delete` | auction/redis-3.0.2/src/dict.c:409-444 | map removal, telling whether the key was there |
| `HashDict.Dict.Resize` | auction/redis-3.0.2/src/dict.c:192-201 | exactly when a resize starts and to which size |
| `DictModel.RehashIndexInside` | auction/redis-3.0.2/src/dict.c:252-254 | while keys are left in the first table the rehash index is inside it and a non-empty bucket lies ahead |
| `DictModel.MoveEntry` | auction/redis-3.0.2/src/dict.c:264-271 | moving one entry keeps both tables valid, their key sets disjoint and their union the same map |
| `DictModel.TakePlace` | auction/redis-3.0.2/src/dict.c:277-284 | an emptied first table can be replaced by the second without changing the map |
| `ScanCursor.Rev` | auction/redis-3.0.2/src/dict.c:755-763 | the bit twiddling reverses all 64 bits |
| `ScanCursor.NextCursorIsSuccessor` | auction/redis-3.0.2/src/dict.c:908-915 | the cursor update is the successor, in reversed-bit order, of the masked cursor |
| `ScanCursor.NextExpansionIncrementsHighBits` | auction/redis-3.0.2/src/dict.c:902-902 | line 902 increments the bits between the masks in normal order and keeps the others |
| `ScanCursor.CallMovesPastOwed` | auction/redis-3.0.2/src/dict.c:908-917 | a call moves past a hash if and only if it was passed before or is owed by this call |
| `ScanCursor.CompleteIffOnesThenZeros` | auction/redis-3.0.2/src/dict.c:893-905 | the expansion loop visits every bucket owed, for every possible hash, if and only if the cursor bits between the two masks have no one above a zero |
| `ScanCursor.SkippedBucket` | auction/redis-3.0.2/src/dict.c:893-905 | sizes 16 and 4 with cursor 1000b: bucket 0100b is owed and not visited |
| `DictScan.ScanExpansions` | auction/redis-3.0.2/src/dict.c:893-905 | the loop terminates and emits the buckets of the specification, in order |
| `DictScan.ExpansionsAreVisited` | auction/redis-3.0.2/src/dict.c:893-905 | an entry is emitted by the loop if and only if it is in a bucket with the right low bits and high bits not below the cursor |
| `DictScan.Scan` | auction/redis-3.0.2/src/dict.c:849-918 | what one call emits, in order, and returns, with one table or two; no key twice |
| `DictScan.EmittedOnce` | auction/redis-3.0.2/src/dict.c:862-906 | one call hands out no key twice, in the middle of a rehash or not |
| `DictScan.RepresentsApart` | auction/redis-3.0.2/src/dict.c:260-274 | in a dictionary that stands for a map no key is in both tables |
| `DictScan.ScanAdvances` | auction/redis-3.0.2/src/dict.c:908-917 | every call returns 0 or a cursor whose reversal is a greater number |
| `DictScan.BelowCursorEmitted` | auction/redis-3.0.2/src/dict.c:774-832 | in a run of good calls every key present so far whose hash lies below the cursor has been emitted |
| `DictScan.ScanIsComplete` | auction/redis-3.0.2/src/dict.c:774-832 | a scan from 0 back to 0, with any changes to the tables between calls, emits every key present throughout, provided no call has a one above a zero between the masks |
| `DictScan.StableScanExact` | auction/redis-3.0.2/src/dict.c:774-832 | a whole scan of a dictionary that does not change hands out exactly its keys with their values, each by one call and once |
| `DictScan.GentleCallsAreGood` | auction/redis-3.0.2/src/dict.c:774-832 | growth, stable tables, halvings and resizes finished between calls meet that condition by themselves |
| `DictScan.GentleScanIsComplete` | auction/redis-3.0.2/src/dict.c:774-832 | so for these the guarantee holds without any condition on cursors |
| `DictScan.ScanTerminates` | auction/redis-3.0.2/src/dict.c:849-918 | a scan over tables of at most 2^n buckets is over after at most 2^n calls |
| `ScanCounterexample.CallCompleteIff` | auction/redis-3.0.2/src/dict.c:893-905 | for all table sizes and cursors: a call during a rehash emits every key it moves past, whatever the dictionary holds, if and only if the cursor bits between the masks are ones and then zeros |
| `ScanCounterexample.GuaranteeFails` | auction/redis-3.0.2/src/dict.c:774-832 | the guarantee as documented is false: a five-call run, 16 buckets shrinking to 4, never emits a key that is present at every call |
| `Election.ClusterNode.ConsiderRequest` | auction/redis-3.0.2/src/cluster.c:2448-2548 | a vote is granted exactly when the voter serves slots, the request is not old, no vote was given in this epoch, the requester is a replica of a failed master (or forced), enough time has passed, and no claimed slot is known with a newer epoch |
| `Election.ClusterNode.CountAck` | auction/redis-3.0.2/src/cluster.c:1910-1922 | an answer counts exactly when it comes from a master with slots and is not older than the epoch asked in |
| `Election.ClusterNode.HandleFailover` | auction/redis-3.0.2/src/cluster.c:2684-2848 | exactly when an attempt is scheduled, asks for votes or wins, what each does to the epochs, and the time for which an attempt is scheduled |
| `Election.BetterRankAsksFirst` | auction/redis-3.0.2/src/cluster.c:2754-2768 | of two replicas that schedule at the same time the one with the better rank asks first, whatever the random delays |
| `Election.FreshVote` | auction/redis-3.0.2/src/cluster.c:2475-2482 | a master about to vote has not voted in that epoch |
| `Election.AckIsCounted` | auction/redis-3.0.2/src/cluster.c:1910-1922 | counting an answer keeps the count equal to the distinct voters of the present election plus the answers counted before it began |
| `Election.NextKeepsInv` | auction/redis-3.0.2/src/cluster.c:2448-2848 | every step of every node, with messages delayed and lost, keeps the invariant on votes, counts and victories |
| `Election.TwoWinnersNeedStaleVotes` | auction/redis-3.0.2/src/cluster.c:2684-2848 | in every run, two winners of one epoch have counted answers to earlier elections: one at least with an odd number of masters, two with an even number |
| `Election.OneWinnerPerEpoch` | auction/redis-3.0.2/src/cluster.c:2684-2848 | a run in which nobody asks for votes with answers already counted elects at most one node an epoch, by a majority |
| `ElectionCounterexample.BothCanWinIff` | auction/redis-3.0.2/src/cluster.c:2757-2830 | two replicas that ask for votes in the same new epoch can both win it, in some future, if and only if the answers they had already counted are together at least one (odd number of masters) or two (even) |
| `ElectionCounterexample.LateAnswersElectTwo` | auction/redis-3.0.2/src/cluster.c:2757-2830 | from any state, a replica that has counted that many answers before asking can bring about an epoch that it and any other replica both win |
| `ElectionCounterexample.AnyTwoReplicasCanWin` | auction/redis-3.0.2/src/cluster.c:2757-2830 | at most one winner an epoch is false of every cluster: whatever the masters and the state, any two replicas can come to win the same epoch |
| `ElectionCounterexample.TwoWinners` | auction/redis-3.0.2/src/cluster.c:2757-2822 | a run with three masters and one late answer in which two replicas win the same epoch |
| `ConfigEpochs.Epochs.GetMaxEpoch` | auction/redis-3.0.2/src/cluster.c:922-935 | the greatest of the current epoch and all known configuration epochs |
| `ConfigEpochs.Epochs.BumpWithoutConsensus` | auction/redis-3.0.2/src/cluster.c:966-984 | the new epoch is above all known ones; refused only to a node that already has the greatest; the step of the run theorems |
| `ConfigEpochs.Epochs.HandleCollision` | auction/redis-3.0.2/src/cluster.c:1031-1046 | moves exactly on a collision of masters in which the other has the greater name |
| `ConfigEpochs.Epochs.Process` | auction/redis-3.0.2/src/cluster.c:1584-1956 | what a header or an UPDATE does to the epochs and role of its receiver is the step of the run theorems: only masters move, and only on headers of masters |
| `ConfigEpochs.ReceiveRecords` | auction/redis-3.0.2/src/cluster.c:1584-1956 | whatever a message says is recorded: current epoch, the sender's epoch, the epoch of the node an UPDATE is about; no other record changes but the receiver's own in a collision |
| `ConfigEpochs.CollisionResolved` | auction/redis-3.0.2/src/cluster.c:1031-1046 | a collision leaves its receiver with an epoch newer than all it knows |
| `ConfigEpochs.NextGood` | auction/redis-3.0.2/src/cluster.c:1584-1595 | every step keeps configuration epochs at or below the current epoch in every node and message, and no epoch decreases |
| `ConfigEpochs.ConfigNeverAhead` | auction/redis-3.0.2/src/cluster.c:1584-1595 | in every run no configuration epoch known or sent is above the current epoch beside it, UPDATE messages included |
| `ConfigEpochs.EpochsOnlyGrow` | auction/redis-3.0.2/src/cluster.c:1584-1595 | over any stretch of any run every recorded epoch grows or stays |
| `ConfigEpochs.MastersAreHonest` | auction/redis-3.0.2/src/cluster.c:1935-1956 | while roles stay, with replicas announcing their master's epoch, nobody records an epoch for a master that the master itself does not have, so an UPDATE about oneself changes nothing |
| `ConfigEpochs.RecordsAreExact` | auction/redis-3.0.2/src/cluster.c:1584-1956 | in every run with fixed roles, a node that received a header of, or an UPDATE about, a master saying what it has, records precisely the master's epoch as long as that does not change |
| `ConfigEpochs.SentSaysNow` | auction/redis-3.0.2/src/cluster.c:2098-2129 | a master's header says what it has, and so does an UPDATE by a node with a right record |
| `ConfigEpochs.OwnAfter` | auction/redis-3.0.2/src/cluster.c:2830-2848 | a node that wins an election or is assigned an epoch has that epoch then, or one that was newer, and no other node changes |
| `ConfigEpochs.FewHeld` | auction/redis-3.0.2/src/cluster.c:1031-1046 | n nodes have held at most n configuration epochs between them |
| `ConfigEpochs.CollisionsEnd` | auction/redis-3.0.2/src/cluster.c:1001-1046 | the node with n greater names is moved at most n times in any run of message exchange among masters and replicas, the greatest never |
| `ConfigEpochs.DistinctIffNoCollision` | auction/redis-3.0.2/src/cluster.c:1854-1861 | the masters' configuration epochs are distinct if and only if no up to date header of a master makes a master move |
| `Slots.SetBitSets` | auction/redis-3.0.2/src/cluster.c:3297-3308 | setting a bit of the byte array sets that slot and no other |
| `Slots.ClearBitClears` | auction/redis-3.0.2/src/cluster.c:3311-3316 | clearing a bit clears that slot and no other |
| `Slots.ClusterState.AddSlot` | auction/redis-3.0.2/src/cluster.c:3342-3347 | assigns an unassigned slot, keeping owner table, bitmaps and counts in agreement |
| `Slots.ClusterState.DelSlot` | auction/redis-3.0.2/src/cluster.c:3352-3359 | unassigns a slot; the assertion on the owner's bit never fails |
| `Slots.ClusterState.DelNodeSlots` | auction/redis-3.0.2/src/cluster.c:3363-3371 | exactly the slots of the node become unassigned and its count is 0; the number returned is that of the slots deleted if and only if the node had all slots |
| `Slots.ClusterState.ClaimSlot` | auction/redis-3.0.2/src/cluster.c:1454-1487 | when a claimed slot is rebound |
| `Slots.ClusterState.RebindSlots` | auction/redis-3.0.2/src/cluster.c:1453-1490 | the slots that move are exactly those claimed with a newer epoch or unassigned and not being imported; which of them are dirty, and whether the current master lost one |
| `Slots.ClusterState.UpdateSlotsConfigWith` | auction/redis-3.0.2/src/cluster.c:1430-1518 | nothing for a claim by oneself; otherwise the slots move, the node is to follow the sender if and only if its master had slots and lost the last one, and if not, the keys of exactly its dirty slots are to be deleted |
| `Slots.ClusterState.Process` | auction/redis-3.0.2/src/cluster.c:1584-1808 | recording the epoch of a master and running the loop only when its bitmap differs gives the table of the convergence theorems |
| `Slots.HearAllNewest` | auction/redis-3.0.2/src/cluster.c:1430-1490 | after any sequence of claims, on top of claims heard before, each slot not being imported belongs to the newest configuration among all those heard that claim it |
| `Slots.ImportedKept` | auction/redis-3.0.2/src/cluster.c:1458-1462 | a slot that is being imported keeps its owner over any sequence of claims |
| `Slots.ClaimsConverge` | auction/redis-3.0.2/src/cluster.c:1430-1490 | two nodes that come to have heard the same claims, from different earlier states, in any order and any number of times, agree on every slot that neither is importing |
| `SlotRanges.DescribeSlots` | auction/redis-3.0.2/src/cluster.c:3646-3664 | the text is that of the maximal runs of set bits, including a run that ends at the last slot |
| `SlotRanges.RunsCover` | auction/redis-3.0.2/src/cluster.c:3646-3664 | the runs contain a slot if and only if its bit is set |
| `SlotRanges.SplitOfPrint` | auction/redis-3.0.2/src/cluster.c:222-257 | splitting the printed text gives one argument a range |
| `SlotRanges.ParseOfToken` | auction/redis-3.0.2/src/cluster.c:249-255 | parsing a printed range gives its ends back |
| `SlotRanges.LoadSlots` | auction/redis-3.0.2/src/cluster.c:222-257 | the bits set are exactly those some argument names |
| `SlotRanges.WriteThenRead` | auction/redis-3.0.2/src/cluster.c:3646-3664 | every bitmap of 16384 slots is read back as it was written |
| `Crc64.TableStep` | auction/redis-3.0.2/src/crc64.c:176-179 | one table step is eight bit-serial steps |
| `Crc64.Crc64` | auction/redis-3.0.2/src/crc64.c:173-181 | the loop computes the bit-serial checksum |
| `Crc64.TableEntry80` | auction/redis-3.0.2/src/crc64.c:42-171 | entry 0x80 of a correct table is the reflected polynomial |
| `Crc64Check.CheckValue` | auction/redis-3.0.2/src/crc64.c:11-11 | the checksum of "123456789" with the polynomial of the model is e9c6d914c4b8d9ca |
| `Crc64.CrcInjective` | auction/redis-3.0.2/src/crc64.c:173-181 | the checksum of fixed bytes is injective in the starting register |
| `Crc64.CrcOfWord` | auction/redis-3.0.2/src/crc64.c:173-181 | up to eight bytes act as one word added to the register |
| `Crc64.BurstDetected` | auction/redis-3.0.2/src/crc64.c:173-181 | a change confined to eight consecutive bytes always changes the checksum |
| `Crc64.VerifyIsEmptyRegister` | auction/redis-3.0.2/src/cluster.c:4337-4354 | a payload is accepted if and only if it has a footer, the version matches, and the checksum of all its bytes is zero |
| `Crc64.CreatedIsVerified` | auction/redis-3.0.2/src/cluster.c:4304-4331 | every payload that is created is accepted |
| `Crc64.DamageIsRejected` | auction/redis-3.0.2/src/cluster.c:4337-4354 | an accepted payload changed within eight consecutive bytes, anywhere including the footer, is rejected |
| `AofLog.CatCommand` | auction/redis-3.0.2/src/aof.c:435-458 | appends the protocol form of the command |
| `AofLog.RoundTrip` | auction/redis-3.0.2/src/aof.c:599-748 | loading the printed form of any list of commands gives the list, complete |
| `AofLog.LoadPrefix` | auction/redis-3.0.2/src/aof.c:599-748 | loading any prefix of a log executes exactly the commands wholly inside it, with the valid length at the end of the last |
| `AofLog.BadLine` | auction/redis-3.0.2/src/aof.c:645-645 | a valid log followed by a line that does not start with an asterisk loads its commands and ends in a format error |
| `AofLog.BadCount` | auction/redis-3.0.2/src/aof.c:647-648 | the same for a whole header line whose count is below one |
| `AofLog.BadArg` | auction/redis-3.0.2/src/aof.c:660-660 | the same for a line that does not start with a dollar sign where an argument should be, after any number of whole arguments |
| `AofLog.BadLength` | auction/redis-3.0.2/src/aof.c:661-662 | the same for an argument with a negative length |
| `AofLog.OutcomeAt` | auction/redis-3.0.2/src/aof.c:639-735 | for every file, how the load ends is decided by what stands at valid_up_to: nothing, a command that breaks off, or one that is no command |
| `AofLog.TruncatedLogIsClean` | auction/redis-3.0.2/src/aof.c:717-748 | for any file at all, truncating at the valid length leaves a file that loads completely to the same commands |
| `AofLists.RewriteList` | auction/redis-3.0.2/src/aof.c:770-823 | the item-by-item output is the printed form of RPUSH commands whose announced counts are right |
| `AofLists.ChunksRebuild` | auction/redis-3.0.2/src/aof.c:770-823 | the commands push between 1 and 64 items each and together rebuild the list in order |
| `AofLists.WriteThenLoad` | auction/redis-3.0.2/src/aof.c:770-823 | the loader reads those commands back |
| `AofRewrite.FeedKeepsStep` | auction/redis-3.0.2/src/aof.c:497-545 | feeding commands, with SELECT where the database changed, keeps a log in step with the live dataset |
| `AofRewrite.NextKeepsInv` | auction/redis-3.0.2/src/aof.c:1002-1506 | every step of parent and child keeps the invariant of the rewrite protocol |
| `AofRewrite.NothingLost` | auction/redis-3.0.2/src/aof.c:94-192 | while the child lives, its diff, the pipe and the blocks are together exactly what was fed since the fork |
| `AofRewrite.LogAlwaysReplays` | auction/redis-3.0.2/src/aof.c:497-545 | in every run, whichever rewrites succeed or fail, whenever AOF is on the file and the buffer load completely and replay to the live dataset |
| `AofRewrite.RewriteIsSafe` | auction/redis-3.0.2/src/aof.c:1364-1506 | with AOF on or being turned on, a successful rewrite leaves snapshot plus all differences, which alone replays to the live dataset, so the dropped buffer is not missed |
| `AofRewrite.RewriteWhileOff` | auction/redis-3.0.2/src/aof.c:1395-1440 | with AOF off, a successful rewrite replaces the file by one that loads completely and replays to the dataset the child was forked with |
| `AofRewrite.FailedRewriteChangesNothing` | auction/redis-3.0.2/src/aof.c:1364-1506 | a rewrite that fails in the child or in the parent leaves file, buffer and dataset as they were |
| `AofRewrite.StopLeavesTheLog` | auction/redis-3.0.2/src/aof.c:206-231 | turning AOF off keeps file and buffer together as they were, and after a full flush the file replays to the live dataset |
| `AofRewrite.CrashLosesOnlyATail` | auction/redis-3.0.2/src/aof.c:599-748 | at any moment the file alone loads to exactly the logged commands that had wholly reached it, and to all of them once the buffer is empty |
| `AofWrite.RewriteBuffer.Append` | auction/redis-3.0.2/src/aof.c:123-167 | the bytes are appended across blocks that never overflow |
| `AofWrite.RewriteBuffer.SendDiff` | auction/redis-3.0.2/src/aof.c:94-120 | what was sent and what remains is what there was, for every outcome of write; something remains only after a failed write or a stop; the handler stays exactly while there is something to send |
| `AofWrite.RewriteBuffer.Write` | auction/redis-3.0.2/src/aof.c:172-192 | all bytes are written, or an error is returned because a write failed, and the blocks stay |
| `AofWrite.AofFile.Feed` | auction/redis-3.0.2/src/aof.c:534-535 | the buffer grows by the bytes fed |
| `AofWrite.AofFile.FailedWrite` | auction/redis-3.0.2/src/aof.c:330-385 | after a short or failed write, truncated or not, file and buffer still are what was fed |
| `AofWrite.AofFile.Flush` | auction/redis-3.0.2/src/aof.c:273-433 | for every outcome of write and ftruncate: file plus buffer is all that was fed and the file length is the recorded size until a fatal exit, which only policy always takes; postponed for less than two seconds; always means synced |
| `AofWrite.AofFile.SyncIfNeeded` | auction/redis-3.0.2/src/aof.c:413-432 | when the file is synced, when a background sync is queued, and that nothing changes otherwise |
| `BackgroundJobs.NextKeepsInv` | auction/redis-3.0.2/src/bio.c:126-190 | every step of main thread and worker keeps queue, count and history in agreement |
| `BackgroundJobs.JobsInOrder` | auction/redis-3.0.2/src/bio.c:126-199 | in every run jobs are processed once, in the order of creation, and none pending means all processed |
| `HllDense.GetIsRegister` | auction/redis-3.0.2/src/hyperloglog.c:337-347 | the macro reads the six packed bits of the register |
| `HllDense.SetChangesSixBits` | auction/redis-3.0.2/src/hyperloglog.c:349-359 | the macro changes the six bits of the register and no other bit |
| `HllDense.SetIsUpdate` | auction/redis-3.0.2/src/hyperloglog.c:349-359 | setting a register is an array update on all 16384 |
| `HllSparse.DecodeAppend` | auction/redis-3.0.2/src/hyperloglog.c:361-386 | opcode strings decode to concatenated registers |
| `HllSparse.Locate` | auction/redis-3.0.2/src/hyperloglog.c:658-690 | the scan finds the opcode that covers the register |
| `HllSparse.SplitDecodes` | auction/redis-3.0.2/src/hyperloglog.c:752-808 | the opcodes that replace a run decode to the run with one register changed |
| `HllSparse.Substituted` | auction/redis-3.0.2/src/hyperloglog.c:810-823 | the splice changes exactly the register meant |
| `HllSparse.MergePass` | auction/redis-3.0.2/src/hyperloglog.c:832-861 | the registers stay the same and the string does not grow; each of five turns joins two VALs or leaves an opcode that cannot be joined with the next, unless the string ends first |
| `HllCount.DenseSum` | auction/redis-3.0.2/src/hyperloglog.c:504-558 | the unrolled loop computes the sum and zero count of the registers |
| `HllCount.SparseSum` | auction/redis-3.0.2/src/hyperloglog.c:888-923 | the run by run loop computes the same of the decoded registers |
| `HllCount.RawSum` | auction/redis-3.0.2/src/hyperloglog.c:928-954 | the word by word loop computes the same of raw registers |
| `HyperLogLog.SparseToDense` | auction/redis-3.0.2/src/hyperloglog.c:568-620 | for every string: the walk leaves the register area if and only if the string sets a register beyond the last; otherwise an error if and only if it does not cover 16384 registers; otherwise the dense registers are the decoded ones |
| `HyperLogLog.ValueAfterEndOverruns` | auction/redis-3.0.2/src/hyperloglog.c:590-611 | every string that covers the registers and goes on with a value leads past the register area |
| `HyperLogLog.ShortestOverrun` | auction/redis-3.0.2/src/hyperloglog.c:590-617 | three bytes that lead past the area, and three that are refused |
| `HyperLogLog.SparseEdit` | auction/redis-3.0.2/src/hyperloglog.c:638-861 | for every valid string the result is valid and decodes to the old registers with one replaced, or the register is already as large, or promotion is asked for; counts above 32 always promote, others only near the size limit, which an updated string that grew keeps |
| `HyperLogLog.PatLen` | auction/redis-3.0.2/src/hyperloglog.c:444-470 | index from the low 14 bits, count up to the first one from bit 14 on |
| `HyperLogLog.Hll.constructor` | auction/redis-3.0.2/src/hyperloglog.c:1089-1119 | a new object has all registers zero and a valid cached count of 0, which is coherent if and only if the final arithmetic gives 0 for zero registers |
| `HyperLogLog.Hll.ToDense` | auction/redis-3.0.2/src/hyperloglog.c:568-620 | promotion keeps the registers |
| `HyperLogLog.Hll.DenseAdd` | auction/redis-3.0.2/src/hyperloglog.c:485-498 | the register becomes its maximum with the count; 1 exactly when that changed it |
| `HyperLogLog.Hll.SparseAdd` | auction/redis-3.0.2/src/hyperloglog.c:638-882 | the same for sparse strings, with promotion |
| `HyperLogLog.Hll.Add` | auction/redis-3.0.2/src/hyperloglog.c:1027-1033 | the same whatever the encoding |
| `HyperLogLog.Hll.PfAdd` | auction/redis-3.0.2/src/hyperloglog.c:1155-1191 | on an existing key: all elements are added, the result tells whether any register changed, and the cached count is invalidated exactly then |
| `HyperLogLog.PfAddMissing` | auction/redis-3.0.2/src/hyperloglog.c:1160-1191 | on a missing key: a new object with the elements added, always an update, with the cache invalid and so coherent |
| `HyperLogLog.Hll.PfCount` | auction/redis-3.0.2/src/hyperloglog.c:1232-1281 | returns the count of the present registers, from the cache or not, and leaves it in the cache |
| `HyperLogLog.Hll.Count` | auction/redis-3.0.2/src/hyperloglog.c:967-1024 | the count depends on the registers only, not on their encoding |
| `HyperLogLog.Hll.MergeInto` | auction/redis-3.0.2/src/hyperloglog.c:1044-1083 | pointwise maximum, for both encodings |
| `HyperLogLog.MergeSparse` | auction/redis-3.0.2/src/hyperloglog.c:1060-1081 | for every string: the same run by run, with the same exact conditions for an error and for leaving the area; on an error the registers covered have been merged |
| `HyperLogLog.MergedRegisters` | auction/redis-3.0.2/src/hyperloglog.c:1285-1306 | the loop over the keys merges all of them |
| `HyperLogLog.MergeAllIsMax` | auction/redis-3.0.2/src/hyperloglog.c:1044-1083 | each merged register is the greatest of its sources |
| `HyperLogLog.PfCountUnion` | auction/redis-3.0.2/src/hyperloglog.c:1195-1231 | the count of the merge |
| `HyperLogLog.Hll.PfMerge` | auction/redis-3.0.2/src/hyperloglog.c:1285-1343 | the destination becomes the dense merge of itself and the sources, with its cache invalid |
| `Intset.DecodeEncode` | auction/redis-3.0.2/src/intset.c:55-95 | writing and reading back a value in any width that fits it |
| `Intset.NarrowestEncoding` | auction/redis-3.0.2/src/intset.c:45-52 | the encoding chosen is the narrowest that fits |
| `Intset.UpgradeSlot` | auction/redis-3.0.2/src/intset.c:170-171 | the slot is read before it is overwritten and what is still to be read stays |
| `Intset.TooWide` | auction/redis-3.0.2/src/intset.c:209-214 | a value that needs a wider encoding lies beyond all that are stored, below if negative and above otherwise |
| `Intset.IntSet.Get` | auction/redis-3.0.2/src/intset.c:76-78 | the value at a position |
| `Intset.IntSet.Search` | auction/redis-3.0.2/src/intset.c:115-153 | found if and only if present, at its position; otherwise the position where it belongs |
| `Intset.IntSet.Find` | auction/redis-3.0.2/src/intset.c:254-257 | set membership, for all 64-bit values |
| `Intset.IntSet.Widen` | auction/redis-3.0.2/src/intset.c:167-171 | the back to front loop leaves every value in the new width |
| `Intset.IntSet.UpgradeAndAdd` | auction/redis-3.0.2/src/intset.c:156-180 | all values kept in the wider encoding, the new one first or last |
| `Intset.IntSet.InsertAt` | auction/redis-3.0.2/src/intset.c:224-229 | the tail moves up and the value is written in its place |
| `Intset.IntSet.Add` | auction/redis-3.0.2/src/intset.c:204-231 | set insertion, success exactly for new values, strictly sorted bytes in the least width ever needed |
| `Intset.IntSet.Remove` | auction/redis-3.0.2/src/intset.c:234-251 | set removal, success exactly for present values, width unchanged |
| `Popcount.SidewaysSum` | auction/redis-3.0.2/src/bitops.c:87-88 | after the sideways additions each byte of the word is the number of bits that were set in it |
| `Popcount.Seven` | auction/redis-3.0.2/src/bitops.c:101-107 | the top byte of the product is the sum of the bytes of seven words |
| `Popcount.CountBlock` | auction/redis-3.0.2/src/bitops.c:75-108 | one turn of the main loop adds the bits of 28 bytes |
| `Popcount.Popcount` | auction/redis-3.0.2/src/bitops.c:61-113 | the number of bits set, for every string, length and alignment |
| `Bitops.LoadWord` | auction/redis-3.0.2/src/bitops.c:165-172 | up to eight bytes, the first most significant, padded with zeros |
| `Bitops.SkipPlain` | auction/redis-3.0.2/src/bitops.c:138-156 | only bytes without the bit are skipped, one by one or eight at a time, for every alignment |
| `Bitops.ScanWord` | auction/redis-3.0.2/src/bitops.c:182-198 | the first such bit of the word; the panic is never reached |
| `Bitops.Bitpos` | auction/redis-3.0.2/src/bitops.c:122-200 | the first position of the bit in the string, 8 times the length for a 0 that is not there, -1 for a 1 that is not there |
| `Bitops.GetBitReads` | auction/redis-3.0.2/src/bitops.c:274-278 | GETBIT reads the string as one row of bits |
| `Bitops.SetBit` | auction/redis-3.0.2/src/bitops.c:241-253 | SETBIT changes that bit only, grows the string with zeros and returns the old bit |
| `Bitop.WordIsBytes` | auction/redis-3.0.2/src/bitops.c:371-384 | a word operation works on each byte |
| `Bitop.Block` | auction/redis-3.0.2/src/bitops.c:362-422 | one turn of the fast path leaves the combination of all sources in 32 bytes |
| `Bitop.Lengths` | auction/redis-3.0.2/src/bitops.c:346-351 | no source is shorter than the least length, and the greatest is that of a source |
| `Bitop.CombineByte` | auction/redis-3.0.2/src/bitops.c:425-436 | the slow path computes the combination at one byte |
| `Bitop.Compute` | auction/redis-3.0.2/src/bitops.c:353-438 | fast and slow path together give the combination of the zero-padded sources, for any number of keys |
| `Bitop.CombinedBit` | auction/redis-3.0.2/src/bitops.c:425-436 | bit by bit: all, any, an odd number or none of the sources have it |
| `KeySpace.Db.Add` | auction/redis-3.0.2/src/db.c:93-100 | adds the key to the main dict and to the index under its slot |
| `KeySpace.Db.Overwrite` | auction/redis-3.0.2/src/db.c:107-112 | changes the value only |
| `KeySpace.Db.Delete` | auction/redis-3.0.2/src/db.c:162-172 | removes the key from all three structures |
| `KeySpace.Db.RemoveExpire` | auction/redis-3.0.2/src/db.c:766-771 | removes the expire time |
| `KeySpace.Db.SetExpire` | auction/redis-3.0.2/src/db.c:773-781 | sets the expire time |
| `KeySpace.Db.GetExpire` | auction/redis-3.0.2/src/db.c:785-796 | the expire time or -1; the safety check never fails |
| `KeySpace.Db.ExpireIfNeeded` | auction/redis-3.0.2/src/db.c:822-857 | true exactly when due; deletes on a master only, never while loading |
| `KeySpace.Db.SetKey` | auction/redis-3.0.2/src/db.c:120-129 | the key has the value and no expire time, whatever was there before |
| `KeySpace.Db.Rename` | auction/redis-3.0.2/src/db.c:663-698 | value and expire time move to the new name, whose own are lost, unless it exists and must not; all replies |
| `KeySpace.StretchCounts` | auction/redis-3.0.2/src/db.c:1187-1214 | the entries of a slot stand together in the index and are as many as its keys |
| `KeySpace.Db.CountKeysInSlot` | auction/redis-3.0.2/src/db.c:1187-1214 | the rank arithmetic gives the number of keys in the slot |
| `KeySpace.Db.DelKeysInSlot` | auction/redis-3.0.2/src/db.c:1167-1185 | removes the keys of the slot and no others and returns their number |

## Left out

- dict.c: iterators and fingerprints, random keys, and pointer identity of entries; buckets and chains are sequences held in fields that the methods reassign, so update in place and aliasing of nodes are not modelled.
- HashDict.Dict.Expand: sizes from LONG_MAX on, for which the source asks for a table of LONG_MAX buckets that cannot be allocated, are excluded.
- HashDict.Dict.Add: sizes from LONG_MAX / 2 on, and the truncation of bucket indexes to `int` from 2^31 buckets on, are excluded by its precondition; the same holds for ExpandIfNeeded and Replace.
- HashDict.Dict.Resize: the minimal size is an `int` in the source; 2^31 keys and more are excluded.
- cluster.c: the bus protocol, gossip and failure detection, replica migration, redirections, and slots being migrated or imported in the configuration file; restarts and manual takeovers in elections.
- Slots.ClusterState.UpdateSlotsConfigWith: a replica that does not know its master is excluded; following the sender and deleting keys are results that the caller acts on.
- SlotRanges.LoadSlots: quoting in arguments, slots being migrated or imported, and slots already owned by another node, are not modelled; arguments outside the slot range are excluded.
- Crc64.Crc64: the 256 constants of the table are represented by what each has to be; only entry 0x80 is compared with its constant.
- aof.c: MULTI blocks in the loader, unknown commands, overflow of `atoi`, the rewriting of sets, sorted sets and hashes, and the translation of expire commands, which is taken as given.
- AofWrite.AofFile.Flush: logging, latency samples and error codes are not modelled.
- bio.c: thread creation and cancellation, and the wait on the condition variable; each job type is independent of the others.
- HyperLogLog.Hll.Add: objects whose sparse string is invalid, for which the commands reply with an error, are excluded; what walking over such a string does is in SparseToDense and MergeSparse.
- hyperloglog.c: the hash function, bias correction, the debug and self-test commands, and replies to invalid objects.
- Intset.IntSet.Add: the 32-bit length and blob size are unbounded; big-endian hosts are not modelled.
- bitops.c: parsing of arguments, ranges of BITCOUNT and BITPOS, and replies.
- Bitops.GetBitReads: the shift and mask on one byte are expressed as reading one of its eight bits.
- Bitops.SetBit: the bit arithmetic on one byte is expressed as an update of its eight bits.
- db.c: watched keys, notifications, replication of expiries, databases other than 0 in cluster mode, and the hash that maps keys to slots; the skip list is a sorted sequence.
- adlist.c: the doubly linked list; lists are sequences wherever other components use it.
- Sockets, event loop, configuration, scripting, sorted sets, zip lists, RDB files and the auction application around the server.
