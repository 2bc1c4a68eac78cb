# Nova-core, modelled in Dafny

Nova-core is a Snowflake-style OLAP engine: tables are lists of immutable micro-partitions,
DML rewrites them copy-on-write, change streams report what changed, a cost-based optimizer
orders joins, and a coordinator spreads work over workers. This project models the parts of
it whose correctness is not visible from any one function, and proves what they promise.

* **Change streams** (`ChangeLog`, `StreamProtocol`, `StreamGuarantees`, `StreamReader`).
  Writers, stream creations and stream reads are a labelled transition system whose actions
  are single metadata transactions and interleave freely. In every run a stream delivers each
  sequence number behind its creation exactly once and in order, and only changes committed
  after it was created. Two findings about the code are theorems too: a commit moves the
  published watermark only over its own ranges, so commits against the allocation order put
  changes out of every stream's reach for good (`OutOfOrderCommitStalls`), and
  `ReadableIffOwnPrefix` says exactly when that happens.
* **DML and change capture** (`RowBatches`, `Replay`, `CopyOnWrite`, `Publication`,
  `Statements`, `DmlExecutor`, `LostNulls`, `ChangeCapture`). For every serial run of INSERT,
  UPDATE, DELETE and stream reads, the change rows a stream hands out turn the rows at its
  creation into the table's rows, with one exception: UPDATE writes 0 for the NULLs of
  unmatched rows. `DeliveredChangesRebuildTableIff` shows that this is the only way the change
  rows can be wrong, and that it always makes them wrong.
* **Join ordering** (`Bitmasks`, `JoinGraph`, `JoinOrder`, `JoinCondition`). The dynamic
  program returns a plan if and only if the join graph is connected; every stored plan scans
  its tables once each and is the cheapest join of stored plans; the plan applies all join
  edges if and only if they form a tree.
* **Fragments** (`Fragments`, `FragmentGuarantees`, `DistributedJoin`). Every distribution
  covers each micro-partition once, and stays so over every run of reschedules; broadcast,
  shuffle and co-located joins yield the join of the whole tables.
* **Roles** (`RoleGraph`, `RoleClosure`, `Privileges`). The depth-limited search succeeds
  exactly when the reachable hierarchy is in order and then equals reachability; the
  hierarchy never becomes cyclic.
* **Zone maps** (`Bytes`, `Doubles`, `ZoneMaps`, `TextZoneMaps`). Exactly when pruning on
  converted bounds keeps every micro-partition with a match, for integer and for string
  columns, and from there when a pruned SELECT returns the rows of a plain scan.
* **Wire format, Raft log, Bloom filter, LIKE, merge packing** (`PacketFraming`, `RaftLog`,
  `RuntimeFilter`, `LikeMatcher`, `MergePacking`).

Values that the code gets from outside become parameters: the batches in which a
micro-partition is read back, hash values, transaction, reader and partition ids. A store
transaction is atomic, a range read returns its whole range, and a range read of change
records is sorted by key. A table issues fewer than 2^64 - 1 sequence numbers. Where the
documentation of the code and the code disagree, the model follows the code.

`dafny verify dfyconfig.toml` checks the whole project.

## Model

| member | source | states |
|---|---|---|
| ChangeLog.WalkIsLongestPrefix | crates/nova-coordinator/src/executor.rs:1492-1515 | over spans sorted by first sequence, with overlaps and empty ones, the contiguity walk ends at the greatest n such that everything up to n is covered |
| ChangeLog.ReadTakesLeadingRun | crates/nova-coordinator/src/executor.rs:1551-1561 | of ordered records, the consumable filter selects exactly the leading ones that lie end to end behind the committed sequence |
| ChangeLog.ReadTiled | crates/nova-storage/src/metadata/fdb_store.rs:1325-1342 | fetching a gap-free stretch of the log and reading it yields all its rows: the walk reaches its end and no record is cut off |
| ChangeLog.LogRowsNumbered | crates/nova-storage/src/cdc.rs:20-51 | the rows of a gap-free stretch carry exactly its sequence numbers, each once, in order |
| StreamReader.ContiguousPublished | crates/nova-coordinator/src/executor.rs:1492-1515 | the loop with its saturating arithmetic computes the end of the contiguous published prefix, skipping empty records |
| StreamReader.ReadPayload | crates/nova-coordinator/src/executor.rs:1431-1473 | reading a payload returns exactly rows row_start .. row_start + row_count of the concatenated batches, for any batch split, and fails exactly when there are too few |
| StreamReader.ReadStreamPayloads | crates/nova-coordinator/src/executor.rs:1431-1473 | all records' rows in order if every file serves its record, otherwise the error names the first that does not |
| StreamReader.FilesHoldRecordRows | crates/nova-storage/src/cdc.rs:20-51 | files written one per record serve every record, and the rows read from them are the rows the records stand for in the stream protocol |
| StreamProtocol.CommitCoversOwn | crates/nova-storage/src/metadata/fdb_store.rs:1256-1290 | the numbers a commit moves the watermark over all belong to its own ranges, and it stops at the first that does not |
| StreamProtocol.CommitWriters | crates/nova-storage/src/metadata/fdb_store.rs:1174-1319 | a commit publishes the writer's ranges as disjoint records, keeps other writers' ranges unpublished above the watermark, and leaves no gap below it |
| StreamProtocol.AllocateInv | crates/nova-storage/src/metadata/fdb_store.rs:1119-1172 | allocation hands out a range that no writer holds and no record covers |
| StreamProtocol.FetchReadsAll | crates/nova-coordinator/src/executor.rs:1538-1561 | a fetch gets every row between the stream's offset and the watermark the reader saw, whatever was committed in between |
| StreamProtocol.StepInv | crates/nova-coordinator/src/executor.rs:1517-1617 | every action of writers, readers and stream creation keeps the protocol's invariant |
| StreamGuarantees.DeliversExactlyOnce | crates/nova-coordinator/src/executor.rs:1517-1617 | in every run a stream's delivered rows carry exactly creation offset + 1 .. committed offset, each once and in order; nothing unpublished is passed; every row was committed after the starting point was chosen |
| StreamGuarantees.StepGrows | crates/nova-storage/src/metadata/fdb_store.rs:1063-1109 | only a committing read changes a stream, previews and failed compare-and-sets never do, and delivered rows only grow |
| StreamGuarantees.StreamsOnlyGrow | crates/nova-coordinator/src/executor.rs:1599-1613 | over every run offsets never move back and delivered rows are never taken back or reordered |
| StreamGuarantees.ParkedForever | crates/nova-storage/src/metadata/fdb_store.rs:1256-1290 | a record published above the watermark is never reached by any stream in any continuation |
| StreamGuarantees.ReadableIffOwnPrefix | crates/nova-storage/src/metadata/fdb_store.rs:1256-1290 | a committed record ever becomes readable if and only if its writer holds every number between the watermark and it |
| StreamGuarantees.OutOfOrderCommitStalls | crates/nova-storage/src/metadata/fdb_store.rs:1256-1290 | two writers committing against allocation order: all is published, nothing pending, and the second change stays out of reach for ever |
| StreamGuarantees.SwapReached | crates/nova-storage/src/metadata/fdb_store.rs:1174-1319 | that state is reached from the empty store by two allocations and two commits |
| StreamGuarantees.SerialWritersLoseNothing | crates/nova-storage/src/metadata/fdb_store.rs:1119-1319 | with one writer at a time and no abandoned range, everything issued is readable whenever no writer is active |
| StreamGuarantees.CommittingReadTakesBacklog | crates/nova-coordinator/src/executor.rs:1517-1617 | a read that meets no conflict consumes everything from the offset to the watermark, in order, and changes nothing else |
| RowBatches.EvalFilter | crates/nova-coordinator/src/executor.rs:2624-2703 | the mask marks exactly the rows that match; it fails exactly when the column does not exist |
| RowBatches.UpdateColumn | crates/nova-coordinator/src/executor.rs:2497-2566 | a column rebuilt cell by cell holds the literal where marked, and elsewhere the old value with NULL turned into 0 for Int64 and Float64 |
| RowBatches.ApplyUpdate | crates/nova-coordinator/src/executor.rs:2477-2571 | column-wise assignment is row-wise assignment: row i afterwards is the updated row i |
| RowBatches.TakeRows | crates/nova-coordinator/src/executor.rs:2574-2620 | the batch of the chosen rows, in order, column by column |
| Replay.ReplayConcat | crates/nova-coordinator/src/executor.rs:1295-1321 | replaying change rows is compositional |
| Replay.ReplayFrame | crates/nova-coordinator/src/executor.rs:1295-1321 | rows that the changes do not need are carried along unchanged |
| Replay.ChangesNamePositions | crates/nova-coordinator/src/executor.rs:1295-1321 | every change row names the position of its row in the partition |
| CopyOnWrite.UpdatePairsShareIds | crates/nova-coordinator/src/executor.rs:2265-2327 | an UPDATE's change rows are deletes followed by as many inserts, and delete k and insert k share the row id and hold the old and the new row |
| CopyOnWrite.ActionCounts | crates/nova-coordinator/src/executor.rs:2313-2319 | a record's delete and insert counts: one each per row an UPDATE matches, one delete per row a DELETE matches, together the record's rows |
| CopyOnWrite.ChangesReplayIff | crates/nova-coordinator/src/executor.rs:2226-2474 | for every table, filter, assignment list and batch split: the change rows apply to the old rows and give exactly the new rows if and only if no unmatched row of a rewritten partition has a NULL in an assigned numeric column |
| CopyOnWrite.RebuiltRow | crates/nova-coordinator/src/executor.rs:2503-2540 | an unmatched row survives the rebuild unchanged if and only if it has no NULL in an assigned Int64 or Float64 column |
| Publication.SpansContiguous | crates/nova-storage/src/metadata/fdb_store.rs:1119-1172 | the ranges one statement allocates lie end to end |
| Publication.HeldAfterAllocate | crates/nova-storage/src/metadata/fdb_store.rs:1119-1172 | after its allocations a statement holds exactly one range per group of change rows, of that group's length |
| Publication.QuietStatement | crates/nova-coordinator/src/executor.rs:2079-2089 | a statement that runs alone appends exactly its change rows, in order, to what every stream will read, and leaves nothing pending |
| Statements.EffectFits | crates/nova-coordinator/src/executor.rs:2265-2327 | UPDATE and DELETE allocate no empty range and at most two sequences per row |
| Statements.InsertIsTruthful | crates/nova-coordinator/src/executor.rs:2010-2097 | an INSERT's change rows turn the old rows into the new ones |
| Statements.RewriteIsTruthfulIff | crates/nova-coordinator/src/executor.rs:2226-2474 | an UPDATE or DELETE always appends its change rows, and they turn the old rows into the new ones if and only if it loses no NULL |
| DmlExecutor.RewriteBatch | crates/nova-coordinator/src/executor.rs:2248-2331 | one batch: its rows afterwards and its change rows, as specified on rows |
| DmlExecutor.Table.ExecInsert | crates/nova-coordinator/src/executor.rs:2010-2097 | INSERT's effect on partitions, ids and log; an insert of no rows fails |
| DmlExecutor.Table.RewriteFile | crates/nova-coordinator/src/executor.rs:2243-2331 | batch by batch, the rewritten file and one allocated range per batch with a match |
| DmlExecutor.Table.RewritePartitions | crates/nova-coordinator/src/executor.rs:2242-2347 | partition by partition, what is superseded, added and emitted; an unresolvable filter leaves everything as it was |
| DmlExecutor.Table.ExecRewrite | crates/nova-coordinator/src/executor.rs:2226-2474 | UPDATE's and DELETE's effect on partitions, ids and log |
| LostNulls.StatementNulls | crates/nova-coordinator/src/executor.rs:2503-2540 | a statement moves the table's number of NULLs as its change rows do, less those it loses, which are none if and only if no unmatched row has one to lose |
| ChangeCapture.RunTellsIff | crates/nova-coordinator/src/executor.rs:2010-2620 | over every serial run: all change rows apply to the first rows and give the last rows if and only if no UPDATE of the run lost a NULL, so a lost NULL is never made good |
| ChangeCapture.DeliveredChangesRebuildTableIff | crates/nova-coordinator/src/executor.rs:2010-2620 | for every serial run of INSERT, UPDATE, DELETE and reads of any streams: the rows a stream has delivered, replayed on the rows at its creation, are the table's rows if and only if no UPDATE of the run lost a NULL |
| ChangeCapture.NullBecomesZero | crates/nova-coordinator/src/executor.rs:2503-2540 | a table, an UPDATE and a NULL for which the change rows are wrong |
| Bitmasks.OperatorBits | crates/nova-coordinator/src/cbo.rs:174-180 | bitwise and, or and and-not are intersection, union and difference of bit sets |
| Bitmasks.SameBits | crates/nova-coordinator/src/cbo.rs:155-163 | a mask is determined by its bits |
| Bitmasks.PreviousSubmask | crates/nova-coordinator/src/cbo.rs:343-351 | (s - 1) & m is the greatest submask of m below s |
| Bitmasks.Submasks | crates/nova-coordinator/src/cbo.rs:343-351 | lists every non-empty proper submask once, in strictly decreasing order |
| Bitmasks.SubsetsFrom | crates/nova-coordinator/src/cbo.rs:325-340 | lists once every completion of a mask by k bits from start on |
| Bitmasks.Subsets | crates/nova-coordinator/src/cbo.rs:318-340 | lists every k-subset of n tables once |
| JoinGraph.ConnectedIffPaths | crates/nova-coordinator/src/cbo.rs:289-300 | connected by cuts is connected by paths |
| JoinGraph.UnionConnected | crates/nova-coordinator/src/cbo.rs:173-201 | two connected subsets joined by an edge are connected together |
| JoinGraph.SplitConnected | crates/nova-coordinator/src/cbo.rs:173-201 | a connected set of two or more tables splits into a connected rest and one table, joined by an edge |
| JoinOrder.FindJoinEdge | crates/nova-coordinator/src/cbo.rs:279-302 | the first edge with one end in each sub-plan, or none if there is none |
| JoinOrder.ChooseSplit | crates/nova-coordinator/src/cbo.rs:168-206 | the cheapest join of stored plans over all splits of the subset, the first tried of the cheapest, or none if no split works |
| JoinOrder.ChosenIffConnected | crates/nova-coordinator/src/cbo.rs:173-201 | a subset has a split into stored plans joined by an edge if and only if it is connected |
| JoinOrder.JoinScansOnce | crates/nova-coordinator/src/cbo.rs:305-315 | joining plans over disjoint tables scans the union once each |
| JoinOrder.StaysBest | crates/nova-coordinator/src/cbo.rs:203-206 | a stored plan stays the best one whatever is stored later for larger subsets |
| JoinOrder.FillSize | crates/nova-coordinator/src/cbo.rs:166-208 | one round decides all subsets of its size |
| JoinOrder.Optimize | crates/nova-coordinator/src/cbo.rs:147-213 | a plan is returned if and only if the join graph is connected; the final table has a plan exactly for every connected subset, which scans its tables once each, and every plan in it is a scan or the cheapest join of plans in it |
| JoinCondition.AppliedOnce | crates/nova-coordinator/src/cbo.rs:289-300 | the joins of a plan apply distinct edges, one less than tables |
| JoinCondition.AppliesAllIffTree | crates/nova-coordinator/src/cbo.rs:173-201 | the plan applies every edge exactly once if and only if there are n - 1 edges, otherwise some join predicate is dropped |
| Fragments.SortedKeys | crates/nova-coordinator/src/distributed.rs:281-293 | the keys of a bucket map in ascending order |
| Fragments.FragmentDispatcher.FragmentsFromBuckets | crates/nova-coordinator/src/distributed.rs:281-293 | one non-empty fragment per bucket, by ascending worker, with fresh consecutive ids |
| Fragments.FragmentDispatcher.DistributeScan | crates/nova-coordinator/src/distributed.rs:65-95 | fragments of the round-robin deal |
| Fragments.FragmentDispatcher.DistributeBroadcast | crates/nova-coordinator/src/distributed.rs:174-198 | all micro-partitions to every worker |
| Fragments.FragmentDispatcher.DistributeByKey | crates/nova-coordinator/src/distributed.rs:201-236 | fragments of the deal by partition key, placed by a hash or by the key itself |
| Fragments.FragmentDispatcher.RescheduleFailed | crates/nova-coordinator/src/distributed.rs:250-279 | fragments of dead workers move to the live ones in order, with new ids |
| FragmentGuarantees.DispatchCovers | crates/nova-coordinator/src/distributed.rs:65-95 | every dealt micro-partition is in exactly one fragment, as often as listed |
| FragmentGuarantees.ScanIsBalanced | crates/nova-coordinator/src/distributed.rs:74-80 | for distinct worker ids, worker j gets the quotient, plus one if j is below the remainder |
| FragmentGuarantees.SnapshotIsShare | crates/nova-coordinator/src/distributed.rs:295-311 | the snapshot sent to a worker is exactly its share, hence never empty |
| FragmentGuarantees.StepConserves | crates/nova-coordinator/src/distributed.rs:250-279 | a reschedule loses no micro-partition if and only if a worker lives (or there was nothing); then ids stay distinct and no fragment is on a dead worker |
| FragmentGuarantees.ReschedulesConserve | crates/nova-coordinator/src/distributed.rs:250-279 | the same over every run of reschedules in which some worker lives each time |
| FragmentGuarantees.DistributionSurvives | crates/nova-coordinator/src/distributed.rs:65-95 | a distribution followed by any reschedules still covers every micro-partition once, without an empty fragment |
| DistributedJoin.BroadcastJoinIsJoin | crates/nova-coordinator/src/distributed.rs:97-150 | the fragments, each joined with the whole broadcast table, together give the join of the two tables, also after any reschedules |
| DistributedJoin.EmptyListIsHarmless | crates/nova-worker/src/grpc_server.rs:262-274 | reading a whole table for an empty list adds nothing to a worker's inner join of co-partitioned tables |
| DistributedJoin.DealtJoinIsJoin | crates/nova-coordinator/src/distributed.rs:201-236 | for tables dealt so that matching rows meet, the workers' joins are together the join of the tables |
| DistributedJoin.CoLocatedJoinIsJoin | crates/nova-coordinator/src/distributed.rs:201-236 | so it is for shuffle and co-location whenever matching rows have equal partition keys |
| RoleGraph.Newcomer | crates/nova-coordinator/src/executor.rs:188-207 | a role first reached in step d + 1 was put there by one at shortest distance d |
| RoleGraph.NewEdgeKeepsAcyclic | crates/nova-storage/src/metadata/security_impl.rs:212-265 | an edge whose child cannot reach its parent closes no cycle |
| RoleClosure.Visit | crates/nova-coordinator/src/executor.rs:198-206 | a visited role exists, is not the forbidden one, and has only existing children, or the search cannot succeed |
| RoleClosure.Explore | crates/nova-coordinator/src/executor.rs:182-209 | the search ends on every graph; it succeeds exactly when every reachable role exists, no role at shortest distance 64 has a child and the forbidden role is out of reach, and then returns the reachable roles |
| Privileges.SetBit | crates/nova-common/src/types.rs:146-148 | setting a bit adds the privilege and nothing else |
| Privileges.ClearBit | crates/nova-common/src/types.rs:149-151 | clearing a bit removes the privilege and nothing else |
| Privileges.ContainsIffMember | crates/nova-common/src/types.rs:143-145 | the bit test is membership |
| Privileges.FromPrivilegesMembers | crates/nova-common/src/types.rs:138-142 | the folded bits stand for exactly the listed privileges |
| Privileges.PrivilegeSet.Insert | crates/nova-common/src/types.rs:146-148 | in place: members plus the privilege, no other bit touched |
| Privileges.PrivilegeSet.Remove | crates/nova-common/src/types.rs:149-151 | in place: members minus the privilege, no other bit touched |
| Privileges.ActiveRoleIds | crates/nova-common/src/types.rs:227-237 | the primary role first, then the secondary ones if they are on, each once |
| Privileges.ActiveRoleClosure | crates/nova-coordinator/src/executor.rs:182-209 | the roles reachable from the active ones, or an error exactly when the hierarchy is not in order |
| Privileges.HasPrivilege | crates/nova-coordinator/src/executor.rs:211-234 | true exactly when some reachable role is ACCOUNTADMIN, owns the object or was granted the privilege |
| Privileges.GrantRole | crates/nova-storage/src/metadata/security_impl.rs:168-265 | a grant succeeds exactly when the roles exist and differ, the child's hierarchy is in order and the parent is not in it |
| Privileges.RunsStayAcyclic | crates/nova-storage/src/metadata/security_impl.rs:748-770 | over every run of creations, grants and revocations no role comes to inherit from itself |
| Doubles.DoubleGrows | crates/nova-coordinator/src/mp_pruning.rs:121-127 | conversion to double never reverses an order |
| Doubles.SmallIsExact | crates/nova-coordinator/src/mp_pruning.rs:121-127 | conversion is exact up to 2^53 |
| Doubles.DoubleIsNear | crates/nova-coordinator/src/mp_pruning.rs:157-171 | the converted value is within half a unit of the integer |
| Doubles.I64RoundTrip | crates/nova-storage/src/mp_writer.rs:248-255 | a stored 64-bit bound is read back as itself |
| ZoneMaps.ComputeColumnStats | crates/nova-storage/src/mp_writer.rs:200-330 | nulls counted over all batches, bounds from the first batch with data alone |
| ZoneMaps.NeverDropsIff | crates/nova-coordinator/src/mp_pruning.rs:71-110 | for every operator: no literal makes the pruner drop a column with a match if and only if its bounds, as doubles, are the true ones, and for > and < also differ from their neighbour |
| ZoneMaps.NeverDropsIffSafe | crates/nova-coordinator/src/mp_pruning.rs:71-110 | the same as a condition on the column's data alone, with or without values |
| ZoneMaps.SingleBatchIsSafe | crates/nova-coordinator/src/mp_pruning.rs:71-110 | one batch is always safe for non-strict operators, for > if its maximum lies in (-2^53, 2^53], for < if its minimum lies in [-2^53, 2^53) |
| ZoneMaps.LargeValueDropped | crates/nova-coordinator/src/mp_pruning.rs:86-87 | 2^53 + 1 > 2^53 is lost |
| ZoneMaps.SecondBatchDropped | crates/nova-storage/src/mp_writer.rs:221-222 | a value only the second batch has is never found |
| ZoneMaps.MatchIsKept | crates/nova-coordinator/src/mp_pruning.rs:36-68 | however comparisons are combined by AND and OR, a micro-partition with a matching row is kept if the data of each compared column meets the condition |
| ZoneMaps.PrunesExactlyIff | crates/nova-coordinator/src/executor.rs:2139-2217 | for a filter that is one comparison: pruning returns the rows of the plain scan for every literal if and only if the compared column meets the condition in every micro-partition |
| ZoneMaps.SingleBatchesPruneExactly | crates/nova-coordinator/src/executor.rs:2139-2217 | one batch per micro-partition and magnitudes below 2^53: pruning returns the rows of the plain scan for every filter tree |
| ZoneMaps.Select | crates/nova-coordinator/src/executor.rs:2139-2217 | the pruned SELECT returns the rows of the kept micro-partitions in order, and those of the plain scan wherever the compared columns meet the condition |
| ZoneMaps.ScanBatches | crates/nova-coordinator/src/executor.rs:2193-2217 | the row loop returns the satisfying rows in order |
| TextZoneMaps.ComputeTextStats | crates/nova-storage/src/mp_writer.rs:296-303 | the least and greatest string, in byte order, of the first batch with data; nulls counted over all batches |
| TextZoneMaps.NeverDropsTextIff | crates/nova-coordinator/src/mp_pruning.rs:71-171 | for every operator: no string makes the pruner drop a column with a match if and only if the column has no value, a bound has a length other than 1, 2, 4 or 8, or the bounds read as numbers lie around zero as the operator wants |
| TextZoneMaps.AsciiValueDropped | crates/nova-coordinator/src/mp_pruning.rs:157-171 | a column whose only value is an ASCII string of 1, 2, 4 or 8 characters is dropped for = that string |
| TextZoneMaps.AbDropped | crates/nova-coordinator/src/executor.rs:3959-3979 | so a micro-partition of the string ab has a matching row for = 'ab' and is dropped |
| PacketFraming.PacketCodec.WriteLargePayload | crates/nova-coordinator/src/mysql_protocol/codec.rs:144-164 | the bytes of the payload's packets, with the sequence id left behind the last |
| PacketFraming.PacketCodec.ReadPacket | crates/nova-coordinator/src/mysql_protocol/codec.rs:61-85 | what is taken from the input is the frame that a writer makes of the returned packet, with the id behind it; an error if and only if the input starts with no frame |
| PacketFraming.FirstIsRead | crates/nova-coordinator/src/mysql_protocol/codec.rs:61-85 | an input is read as a packet if and only if it starts with a packet's frame |
| PacketFraming.PacketCodec.ReadFullPayload | crates/nova-coordinator/src/mysql_protocol/codec.rs:88-104 | the packets up to the first short one, put together |
| PacketFraming.PayloadRoundTrip | crates/nova-coordinator/src/mysql_protocol/codec.rs:88-164 | a non-empty payload of any length, also a multiple of 2^24 - 1, is read back whole, whatever follows |
| PacketFraming.ListRoundTripIff | crates/nova-coordinator/src/mysql_protocol/codec.rs:88-164 | a list of payloads is read back as the same list if and only if none is empty |
| PacketFraming.ConsecutiveIds | crates/nova-coordinator/src/mysql_protocol/codec.rs:144-164 | packet i carries the first id plus i, modulo 256 |
| PacketFraming.IntRoundTrip | crates/nova-coordinator/src/mysql_protocol/codec.rs:182-241 | every 64-bit integer decodes to itself and its exact length, before any suffix |
| PacketFraming.StringRoundTrip | crates/nova-coordinator/src/mysql_protocol/codec.rs:244-264 | so does every string |
| PacketFraming.TruncatedFails | crates/nova-coordinator/src/mysql_protocol/codec.rs:252-264 | no proper prefix of an encoded string decodes |
| RaftLog.BigEndianOrder | crates/nova-coordinator/src/raft_transport.rs:186-190 | big-endian keys are ordered like their numbers |
| RaftLog.OthersOutside | crates/nova-coordinator/src/raft_transport.rs:308-345 | the vote, committed and purged keys lie outside every range of log keys |
| RaftLog.MemoryLogStore.AppendEntries | crates/nova-coordinator/src/raft_transport.rs:134-149 | entries inserted by index, later ones winning |
| RaftLog.KeyLogStore.AppendEntries | crates/nova-coordinator/src/raft_transport.rs:351-366 | setting the entries under their keys keeps the store standing for the map, with the entries inserted |
| RaftLog.KeyLogStore.TruncateFrom | crates/nova-coordinator/src/raft_transport.rs:368-372 | clearing the keys from the index to the largest keeps the store standing for the truncated map |
| RaftLog.KeyLogStore.PurgeTo | crates/nova-coordinator/src/raft_transport.rs:374-383 | clearing the keys up to the index keeps the store standing for the purged map |
| RaftLog.ClearClose | crates/nova-coordinator/src/raft_transport.rs:247-259 | a range clear between two log keys removes exactly the entries between them, never the one at the largest index |
| RaftLog.StepAgreesIff | crates/nova-coordinator/src/raft_transport.rs:134-383 | an operation keeps two stores that agree agreeing if and only if it does not truncate, or purge at the largest index, a log that holds an entry there |
| RaftLog.RunsAgreeIff | crates/nova-coordinator/src/raft_transport.rs:134-383 | after every run from empty stores, over all 64-bit indices, the byte-key store and the map hold the same log, vote, committed and purged ids if and only if no entry at the largest index was dropped after it was last written |
| RaftLog.TruncatedTopStays | crates/nova-coordinator/src/raft_transport.rs:368-372 | one such run: append at the largest index, then truncate |
| RaftLog.RangeReadsAgreeIff | crates/nova-coordinator/src/raft_transport.rs:263-303 | a range read of the byte-key store, in key order, is the map's range in index order, for every kind of bound, if and only if the range takes in no entry at the largest index |
| RaftLog.CommittedReadsAgreeIff | crates/nova-coordinator/src/raft_transport.rs:321-334 | after every run from empty stores the committed id reads the same from both if and only if the last one saved, if any, was an id |
| RaftLog.AbsentIdUnreadable | crates/nova-coordinator/src/raft_transport.rs:321-334 | saving an absent id once: the map answers none, the byte-key store fails |
| RuntimeFilter.BloomFilter.Insert | crates/nova-coordinator/src/runtime_filter.rs:48-57 | sets the key's bits in place and no others |
| RuntimeFilter.BloomFilter.Contains | crates/nova-coordinator/src/runtime_filter.rs:60-71 | true exactly when all bits of the key are set |
| RuntimeFilter.InsertRepresents | crates/nova-coordinator/src/runtime_filter.rs:48-57 | each insert adds one key to those the filter represents |
| RuntimeFilter.NoFalseNegatives | crates/nova-coordinator/src/runtime_filter.rs:60-71 | every key a filter represents is reported |
| RuntimeFilter.FilterKeepsJoin | crates/nova-coordinator/src/runtime_filter.rs:94-127 | filtering the probe side leaves the equi-join unchanged, for every hash function and size |
| RuntimeFilter.BuildFilter | crates/nova-coordinator/src/runtime_filter.rs:94-127 | after inserting every build row, exactly the bits of the build keys are set |
| RuntimeFilter.PrefilterProbe | crates/nova-coordinator/src/runtime_filter.rs:94-127 | build the filter from one side and filter the other: the equi-join of what passes is the equi-join, and only probe rows pass |
| LikeMatcher.MatchesIffLike | crates/nova-coordinator/src/executor.rs:461-479 | the matcher decides exactly: the value can be cut into one part per pattern character |
| LikeMatcher.MatchesConcatenation | crates/nova-coordinator/src/executor.rs:461-479 | a value matches two patterns in a row if and only if it splits into a match of each |
| MergePacking.CandidatesInOrder | crates/nova-coordinator/src/compaction.rs:151-155 | the candidates are exactly the partitions below half the target, once each and in order |
| MergePacking.MergeGroup | crates/nova-coordinator/src/compaction.rs:177-207 | candidates in order, each in one bin, at most one left over; bins closed by the target have at least three members and a total in [target, target + target/2) |
| MergePacking.OutputsAreFew | crates/nova-coordinator/src/compaction.rs:188-204 | at most one merged partition more than the total holds targets |

## Left out

- JoinOrder.ChooseSplit: costs are exact reals, so ties and order under rounding are not covered.
- JoinOrder.Optimize: estimates are exact reals, not rounded doubles, and only the hash join is costed, because no other join type is ever chosen; at most 31 tables with distinct names.
- JoinCondition.AppliesAllIffTree: says which edges are applied, not in which column order, because the stored columns follow the edge and not the sub-plans.
- Fragments.FragmentDispatcher.DistributeByKey: the hash of the join column and key is any function; a dispatch of paired fragments to workers is not in the code, so the joins are stated over the workers that were dealt anything.
- DistributedJoin.EmptyListIsHarmless: a worker's active micro-partitions are those that were dealt; partitions added meanwhile are not covered.
- DistributedJoin.BroadcastJoinIsJoin: assumes the broadcast table's list is not empty, or the table is.
- RowBatches.EvalFilter: Float64 cells are reals, and a NULL slot of a column is assumed to be read as the type's default, so that a filter decides by the row alone.
- DmlExecutor.Table.ExecRewrite: concurrent UPDATE and DELETE of the same partition are not modelled; each statement works on the partitions it listed.
- DmlExecutor.Table.RewritePartitions: a filter that the analyzer could not resolve becomes no filter before this model starts.
- Privileges.GrantRole: the order in which grants are listed is not the store's key order; no result depends on it.
- RoleClosure.Explore: one search stands for the session's role expansion and for the grant's cycle check, which differ only in the forbidden role.
- ZoneMaps.ComputeColumnStats: Int64 columns, and TextZoneMaps.ComputeTextStats string columns; other types and byte sizes are not modelled.
- ZoneMaps.NeverDropsIff: integer literals on integer columns, and TextZoneMaps.NeverDropsTextIff strings on string columns; mixed comparisons, which the pruner decodes by the literal's type, are not.
- ZoneMaps.Select: rows of Int64 cells; for AND and OR trees the condition on the data is sufficient, and it is exact for one comparison.
- PacketFraming.StringRoundTrip: strings are byte sequences; the lossy UTF-8 decoding of invalid bytes is not modelled.
- PacketFraming.PacketCodec.ReadPacket: what a failed read has consumed is left open.
- PacketFraming.PacketCodec.ReadFullPayload: what a failed read has consumed is left open.
- RaftLog.RunsAgreeIff: one node's store only, since the keys carry no node id.
- MergePacking.MergeGroup: reading and writing the merged rows; the merged partition is never inserted, so rows are not preserved by the code.
- Transactions, conflict detection, time travel, garbage collection and dynamic tables rest on parts of the code that do not do what they say; no property is claimed.
- Bloom sizing, histograms and other estimates only add floating-point arithmetic.
- Networking, object store, Parquet and Arrow encoding, DataFusion, passwords, monitoring and configuration are foreign code or I/O.
- In-memory registries, session variables and the result cache would only add easy members.
