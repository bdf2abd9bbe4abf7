# aDaBt: a verified model of its core

aDaBt promises that no physical specialisation ever changes an answer. This
project models the parts of the engine where that promise is a theorem about a
state machine, a byte layout or a plan rewrite, and proves it there: each part
against a small mathematical specification of what it stands for. Where the code
keeps the promise only under a condition, the condition is stated exactly, with
an input on which it fails.

| modules | what they model |
|---|---|
| `Versions`, `Transactions`, `Serializability` | version chains, snapshots and reclamation; buffered transactions and the two-pass commit; every interleaving of them |
| `Queries`, `Sorting`, `Sharding`, `SortFilters`, `GroupFilters` | logical plans and their meaning; pushing filters to shards, merging by id, re-running centrally; filters above sorts and aggregates |
| `Coordinator`, `Allocation` | the cross-shard journal protocol under crashes, on the journal file's bytes; ids from residue classes |
| `Wire`, `Values`, `Journal`, `Expressions`, `Blobs`, `Formats` | the byte formats, from varints and UTF-8 up to values, journal entries, conditions and index blobs: that each reads back, and what each looks like byte by byte |
| `Varint`, `DeltaColumn`, `Columns`, `ColumnStore`, `ColumnSums`, `TopK` | the delta column that switches form in place; typed columns and what they lose; the column store as a map; its aggregates against the executor's; top-K by a bounded heap |
| `Aggregates`, `Totals`, `Answers`, `Matview` | the executor's aggregate; when its sums are exact; what its answers are, from the rows alone; incremental grouped aggregates under the 2^53 budget |
| `Bitsets`, `Indexes`, `Upkeep`, `Collections` | the index kinds and shapes, their upkeep by every write, unique constraints |
| `ResultCaches`, `Inference` | the result cache; schema inference |
| `Numerics`, `Equality`, `ValueOrder`, `Floats` | exact numbers; comparing and hashing across numeric kinds; the order of all values; rounding to 53 bits |
| `Basics`, `Records` | shared vocabulary |

Code that updates objects in place is modelled by classes whose methods are
proved against functions of the old state; the theorems are about those
functions, and what each of them computes is said again apart from it: what a
write leaves, what a look-up or a sort answers, what a refusal is for. Byte strings are sequences of bytes, text is well-formed UTF-8 bytes,
and the machine's integer widths, wrap-around and truncation are written out
wherever they reach a result.

Three properties of values are hypotheses where they are used, of no more values
than are at hand. That the order is a total preorder is asked of the rows that a
sort under a filter, a top-K or an aggregate really compares; `ValueOrder` proves
it of the engine's own order on tables whose numbers are all whole, or small
decimals (at most 2^53 units and 22 places) and whole numbers up to 2^53, or floats
and whole numbers up to 2^53, and gives the values on which it fails. That equal
values hash alike is asked of what can be stored; it holds of the first two of those
kinds, fails one digit further on, and unique constraints hold over every run
exactly where it does. Rounding is a parameter that must be exact on integers up to
2^53, as rounding to nearest is.

Some findings, each with its lemma below:

- Equality of values is not transitive: a float, or a decimal that fits no common
  scale, equals two whole numbers that differ. Three such rows sorted and then
  filtered are answered in one order by one shard and in another by two; filters
  above a sort are safe exactly when no three of its rows go round.
- Some equal values hash apart: a hash index then misses what an ordered one finds,
  and a unique constraint admits both.
- A column takes the kind of its first value and reads a value of another kind
  back as absent. A delta column also loses a value exactly 2^63 above its base.
- Aggregating over columns gives 0 where the executor gives null for a sum over
  texts, another average where texts stand beside numbers that do not add up to
  zero, no row where it gives one for an ungrouped aggregate over nothing, and,
  past 2^53, another sum when rows were written in another order.
- The second pass of a commit can fail: two of its own Puts may share a
  constrained value, and a record may overflow its page. The write set lands
  whole if and only if neither happens.
- A transaction that scans is serializable if and only if no row joins a
  collection it scanned; no policy checks for that.
- A batch insert that meets an oversized record after good ones leaves those rows
  in the heap with no index entry and no epoch bump. Their unique values are then
  unprotected, and cached results stay as they were.
- A coordinator journal replays from every crash point if and only if no put in it
  reuses a constrained value that an earlier put in it had taken; and it is taken
  up whole after a crash if and only if every entry can be read back.
- A value nested deeper than 64 levels can be written to a journal, a condition or
  an index blob, and is refused when read. In a journal it hides all that follows,
  and recovery then removes the file.
- Conditions pushed below a Limit, Project, Sort or Aggregate keep their meaning only
  under the conditions given; one on an aggregate's output, with grouping, leaves
  nothing.
- A view whose Sum was emptied by deletes answers zero where a scan answers null.
- A descending sort, and top-K with it, puts rows without the field first. The comment
  on the column store's top-K has the direction apply to values only; the code turns
  absence round as well, as the executor's sort does, and the model follows the code.
- `rescale` refuses to move zero by more than 38 places, and decimal division at a
  scale past 38 gives no answer where multiplication falls back to floating point.
- Slot widths wrap around for content longer than 2^32 - 6 bytes.

## Model

| member | source | states |
|---|---|---|
| Versions.AppendObserved | crates/adabt-storage/src/heap.rs:93-95 | a new version changes one key's current value, nothing any earlier snapshot reads, and makes exactly that key newly touched |
| Versions.PutAdvances | crates/adabt-storage/src/heap.rs:877-907 | an upsert sets one key of the contents and takes one stamp; no open snapshot sees it and every open snapshot conflicts with it |
| Versions.DeleteAdvances | crates/adabt-storage/src/heap.rs:1059-1076 | a delete removes one key of the contents and takes one stamp, invisibly to open snapshots, and conflicts with each of them when the key was live |
| Versions.ReclaimObserved | crates/adabt-storage/src/heap.rs:102-117 | dropping versions up to a safe horizon changes neither what an open snapshot reads nor which keys conflict with it |
| Versions.ReclaimKeeps | crates/adabt-storage/src/heap.rs:1679-1718 | reclamation keeps the store well formed and its contents the same, lone tombstones included |
| Versions.SettleAdvances | crates/adabt-storage/src/heap.rs:1820-1826 | a reclamation after a write, whenever it comes, undisturbs every open snapshot and the contents |
| Versions.OpenSnapshotReads | crates/adabt-storage/src/version.rs:66-73 | a snapshot just opened reads exactly the current contents and conflicts with nothing yet |
| Versions.UntouchedIsCurrent | crates/adabt-storage/src/heap.rs:1658-1665 | a key not stamped since a snapshot still holds what that snapshot reads: what makes the stamp comparison a sound conflict test |
| Versions.HeapStore.ReadAt | crates/adabt-storage/src/heap.rs:85-91 | the backward walk over a chain returns the last version at or before the snapshot, a tombstone reading as absent |
| Versions.HeapStore.ScanAt | crates/adabt-storage/src/heap.rs:1847-1863 | a snapshot scan holds each id of the collection with exactly what a point read would return |
| Versions.HeapStore.LatestWriteStamp | crates/adabt-storage/src/heap.rs:1658-1665 | the stamp of the newest version of a key, deletes included |
| Versions.HeapStore.Begin | crates/adabt-storage/src/version.rs:66-73 | opening a snapshot fixes its position at the last stamp issued |
| Versions.HeapStore.ApplyPut | crates/adabt-storage/src/heap.rs:877-907 | the store afterwards is the specified upsert, possibly reclaimed, and well formed |
| Versions.HeapStore.ApplyDelete | crates/adabt-storage/src/heap.rs:1059-1076 | the store afterwards is the specified delete, possibly reclaimed, and well formed |
| Versions.HeapStore.ReclaimHorizon | crates/adabt-storage/src/version.rs:87-93 | the horizon is one no open snapshot lies before |
| Versions.HeapStore.ReclaimAt | crates/adabt-storage/src/heap.rs:1679-1693 | the loops over chains and emptied directory entries produce the specified reclaimed store |
| Versions.ReclaimDrops | crates/adabt-storage/src/heap.rs:102-117 | reclamation drops exactly the versions outlived by the horizon, and with them a key of which nothing but a tombstone is left |
| Transactions.Transaction.Get | crates/adabt-engine/src/transaction.rs:178-195 | own buffered write first, snapshot otherwise; exactly the snapshot reads join the read set, absences included |
| Transactions.Transaction.Scan | crates/adabt-engine/src/transaction.rs:200-229 | each id reads as a point read would; the rows found, and only those, join the read set |
| Transactions.Transaction.Insert | crates/adabt-engine/src/transaction.rs:235-248 | refused exactly when the transaction sees a record there, with the buffered writes as they were; buffered otherwise |
| Transactions.Transaction.Update | crates/adabt-engine/src/transaction.rs:252-263 | buffers an upsert and says whether the transaction saw a record before |
| Transactions.Transaction.Delete | crates/adabt-engine/src/transaction.rs:267-277 | buffers a delete and says whether the transaction saw a record before |
| Transactions.Database.CheckKey | crates/adabt-engine/src/database.rs:1186-1204 | what the first pass says of one key: conflict by stamp, then schema, then unique constraint |
| Transactions.Database.CheckAll | crates/adabt-engine/src/database.rs:1186-1228 | success means every key of the write set, and under the strict policy of the read set, passes; a refusal names a key that did change, or a put that is not accepted or, being accepted, shares a constrained value; nothing is written |
| Transactions.Database.Update | crates/adabt-engine/src/database.rs:3528-3549 | the ordinary upsert: unique check, validation, page limit, one fresh version |
| Transactions.Database.ApplyKeys | crates/adabt-engine/src/database.rs:1234-1244 | the second pass is the specified sequence of upserts and deletes, stopping at the first that fails |
| Transactions.Database.Commit | crates/adabt-engine/src/database.rs:1178-1245 | commits, refuses for a reason that holds and with the store as it was, or is torn; each outcome with the whole resulting store |
| Transactions.ApplyAllLands | crates/adabt-engine/src/database.rs:1234-1244 | wherever the second pass stops, the contents are the overlay of exactly the writes it completed, and open snapshots are undisturbed |
| Transactions.CommitAllOrNothing | crates/adabt-engine/src/database.rs:1183-1245 | after a clean first pass the whole write set lands if and only if its Puts differ pairwise on every constrained field and each fits a page; then the contents are the write-set overlay |
| Transactions.TornCommit | crates/adabt-engine/src/database.rs:1186-1204 | two Puts sharing a constrained value pass every check and leave only the first applied |
| Transactions.ChecksExactly | crates/adabt-engine/src/database.rs:1186-1228 | the first pass succeeds if and only if no key written, nor under the strict policy any key looked at, has a version newer than the snapshot, and each put is accepted and shares no constrained value with another live record |
| Transactions.LandsExactly | crates/adabt-engine/src/database.rs:3528-3549 | a write lands unless it is a put that shares a constrained value, else is not accepted, else does not fit; the answer names the first of these |
| Serializability.StrictRunsAreSerial | crates/adabt-engine/src/database.rs:1178-1245 | under the strict policy, after any interleaving of begins, point operations, scans, commits, aborts and direct writes, the contents are those of the events one after another; each committer re-run alone at its place gets the same answers and writes if and only if no row had joined a collection it scanned, and each reader does where it began |
| Serializability.PointRunsAreSerial | crates/adabt-engine/src/transaction.rs:178-195 | a committed transaction that scanned nothing is always serial |
| Serializability.PhantomPasses | crates/adabt-engine/src/transaction.rs:200-229 | a transaction scans an empty collection, a row lands in it, and every check passes, strict policy or not, though re-run at its place the scan answers otherwise |
| Serializability.SnapshotIsolation | crates/adabt-engine/src/transaction.rs:178-278 | under any policy every transaction, open ones included, was answered only from the contents at its begin and its own writes, and no committed one overwrote a change made in its lifetime |
| Serializability.NextKept | crates/adabt-engine/src/database.rs:1157-1245 | the invariant tying snapshots, buffers, answers, stamps and history survives every kind of step |
| Serializability.ReadsOwnWritesThenBase | crates/adabt-engine/src/transaction.rs:178-229 | a read, and a scan row by row, returns the transaction's latest buffered write, or else the contents it began with |
| Serializability.WritesAnswered | crates/adabt-engine/src/transaction.rs:235-277 | an insert is refused if and only if the transaction sees a record there, by its own latest write or else the contents it began with; an update or delete says whether it sees one |
| Serializability.ReadSetIs | crates/adabt-engine/src/transaction.rs:178-229 | the read set is exactly the keys an operation named that it had not written before, and the rows a scan found |
| Serializability.CommitDoes | crates/adabt-engine/src/database.rs:1178-1245 | a commit ends its transaction; with nothing written it leaves a reader, with a failed check nothing, and with distinct puts that fit the whole write set laid over the contents as one event |
| Serializability.DirectDoes | crates/adabt-engine/src/database.rs:3497-3577 | a write outside a transaction is one event over the contents exactly when the store takes it; an insert needs its id new too |
| Serializability.OthersDo | crates/adabt-engine/src/database.rs:1157-1245 | a begun transaction reads the contents as they are; an operation is answered from its snapshot and its own writes; aborting and reclaiming leave the contents and history as they are |
| Sharding.PushdownFilters | crates/adabt-engine/src/sharded.rs:427-440 | what a shard returns for the pushed-down plan is the table filtered by every predicate the plan carries |
| Sharding.Merge | crates/adabt-engine/src/sharded.rs:622-647 | the cursor loop over runs ascending by id returns their one ascending merge |
| Sharding.MergeUnique | crates/adabt-engine/src/sharded.rs:622-647 | runs have only one ascending merge |
| Sharding.ShardsMerge | crates/adabt-engine/src/sharded.rs:469-500 | merging what the residue-class shards keep gives what a single shard would keep |
| Sharding.SafeRerun | crates/adabt-engine/src/sharded.rs:500-528 | a plan with no Filter above a Limit, Aggregate or Project means the same over the rows its own filters keep, as long as the sorts that a filter stands above order the rows reaching them lawfully; other sorts do not matter |
| Sharding.ShardingPreservesMeaning | crates/adabt-engine/src/sharded.rs:469-528 | for every such plan, aggregates included, and any shard count the sharded rows are the unsharded rows, order and numbering included |
| Sharding.ShardedIs | crates/adabt-engine/src/sharded.rs:469-528 | for any plan the sharded answer is the plan over the rows all its filters keep |
| Sharding.FilterOverLimit | crates/adabt-engine/src/sharded.rs:432-438 | a Filter above a Limit keeps its meaning if and only if the window passes whole or nothing beyond it passes; sorts below it lawful |
| Sharding.FilterOverProject | crates/adabt-engine/src/sharded.rs:432-438 | a Filter above a Project keeps its meaning if and only if no row passes only because a field was hidden; sorts below it lawful |
| SortFilters.SortsExactly | crates/adabt-engine/src/sharded.rs:427-440 | a Filter above a Sort keeps its meaning over the shards for every predicate if and only if the sort keys order the rows reaching the sort lawfully: no three of them go round |
| SortFilters.FloatSplitsSort | crates/adabt-core/src/value.rs:278-303 | by the engine's own order, a float between two larger whole numbers makes two shards answer two sorted rows the other way round |
| SortFilters.TableFiltersOrdered | crates/adabt-engine/src/sharded.rs:427-440 | a table whose values are of kinds lawfully ordered meets the condition for every safe plan |
| SortFilters.OneSortShards | crates/adabt-engine/src/sharded.rs:469-528 | by the engine's own order, any shard count answers as one for every safe plan over a table whose numbers are all whole, or small decimals and whole numbers up to 2^53, or floats and whole numbers up to 2^53 |
| GroupFilters.FilterOverAggregate | crates/adabt-engine/src/sharded.rs:427-440 | a Filter above an Aggregate that reads only the grouping keeps the answer's records, and keeps its rows if and only if the groups that pass come first in key order; order and equality need be relied on of the values at hand only |
| GroupFilters.FilterOnOutput | crates/adabt-engine/src/sharded.rs:427-440 | a Filter true of nothing that lacks the aggregate's outputs: the sharded answer is what the aggregate over nothing leaves, with grouping empty, and right if and only if the plan answers nothing |
| GroupFilters.CountedIsLost | crates/adabt-engine/src/sharded.rs:432-438 | one row grouped, counted and kept for its count: sharded, the answer is empty |
| GroupFilters.AggregateFiltered | crates/adabt-exec/src/exec.rs:1271-1359 | for the executor's aggregate, filtering rows by group first and filtering answer rows last give the same records, and the same numbered rows exactly when the passing groups are an initial run |
| GroupFilters.ScanFiltered | crates/adabt-exec/src/exec.rs:1271-1359 | a group that passes is accumulated as if nothing had been filtered |
| Sharding.OnlyPushdownIs | crates/adabt-engine/src/sharded.rs:444-450 | a plan of filters over a scan needs no central pass: it is its own pushed-down form |
| Queries.RowLawful | crates/adabt-exec/src/exec.rs:1164-1179 | the sort-key order with its id tiebreak is a total preorder of some rows whenever the order of values is one of the values they hold in each key's field |
| Queries.ComesIs | crates/adabt-exec/src/exec.rs:1164-1179 | coming first in a sort, said of presence, null, value and direction key by key and then of ids, is the order the sort uses |
| Queries.SortedRows | crates/adabt-exec/src/exec.rs:795-805 | a sort answers the rows it was given, none coming after a later one: of two rows the one with the field first, then the lesser value, both turned round when descending, then the lesser id |
| Queries.FirstRows | crates/adabt-exec/src/exec.rs:795-805 | a limit over a sort answers as many rows as there are up to the limit, in order, and no row left out comes before one of them |
| Queries.OperatorRows | crates/adabt-exec/src/exec.rs:462-798 | a scan, a point read, a filter and a limit yield exactly the rows they should |
| Queries.ProjectedRows | crates/adabt-exec/src/exec.rs:769-780 | a projection keeps every row and its id and exactly the named fields |
| Coordinator.FoldLookup | crates/adabt-engine/src/sharded.rs:288-308 | a replay leaves each journalled key at its last write and every other key alone |
| Coordinator.FoldErases | crates/adabt-engine/src/sharded.rs:288-308 | replaying the whole list erases any difference confined to its keys |
| Coordinator.ReplayIdempotent | crates/adabt-engine/src/sharded.rs:288-308 | replaying the whole list over any partial replay of it changes nothing |
| Coordinator.ReplayApplies | crates/adabt-engine/src/sharded.rs:288-308 | without value reuse, a list that applied once is admitted again from every mixture of old and new values a crash can leave |
| Coordinator.ReplayableExactly | crates/adabt-engine/src/sharded.rs:288-308 | a list can be replayed from every point of its own application if and only if no later put reuses a constrained value an earlier put had taken |
| Coordinator.ReuseExample | crates/adabt-engine/src/sharded.rs:288-308 | a list that frees and reuses a unique value, as its hash index files it, applies, and its replay is refused |
| Coordinator.NothingUnique | crates/adabt-engine/src/sharded.rs:288-308 | without unique fields nothing is reused and admission does not depend on the shards |
| Coordinator.NextKeeps | crates/adabt-engine/src/sharded.rs:323-350 | every move, crashes included, keeps the file either absent or exactly the journal's bytes and the shards a mixture of the base and the promised contents, when each commit journals only entries that can be read back |
| Coordinator.RunKeeps | crates/adabt-engine/src/sharded.rs:323-350 | the promise holds after every run of such moves |
| Coordinator.RecoveryConverges | crates/adabt-engine/src/sharded.rs:341-350 | after any run of them with any number of crashes, the next recovery, loading the journal from its bytes, lands on base plus everything promised and leaves no journal |
| Coordinator.RedrivesExactly | crates/adabt-engine/src/sharded.rs:243-350 | after a crash just behind the journalling, recovery takes up the very list if and only if every entry is one the format can hold |
| Coordinator.DeepEntryTears | crates/adabt-engine/src/sharded.rs:243-350 | an entry too deep to read takes itself and all behind it out of the recovery, which applies the rest and removes the journal |
| Coordinator.CoordinatedShards.FindConflict | crates/adabt-engine/src/database.rs:1803-1833 | the owner shard's check finds a conflict exactly when another of its records shares a constrained value |
| Coordinator.CoordinatedShards.TryInsert | crates/adabt-engine/src/database.rs:3497-3514 | lands exactly when the id is new, the record accepted and of a size that fits, and no other record of the shard holds one of its constrained values; then it is the only change |
| Coordinator.CoordinatedShards.TryUpdate | crates/adabt-engine/src/database.rs:3528-3549 | lands exactly when the record is accepted, fits and shares no constrained value with another record of the shard, the id's own being no conflict |
| Coordinator.CoordinatedShards.PutByHand | crates/adabt-engine/src/sharded.rs:291-300 | insert, and update if that is refused for any reason: one or the other lands if and only if the write is admitted |
| Coordinator.CoordinatedShards.Apply | crates/adabt-engine/src/sharded.rs:288-308 | success exactly when the whole list is admitted, with its fold; otherwise the fold of a prefix up to a refused write |
| Coordinator.CoordinatedShards.CommitCoordinated | crates/adabt-engine/src/sharded.rs:323-336 | loads what is pending, journals it and the new writes together as bytes, applies them all, and removes the file only then; a refused write leaves those before it applied and the journal in place; an unreadable header stops it with nothing changed |
| Coordinator.CoordinatedShards.RecoverCoordinated | crates/adabt-engine/src/sharded.rs:341-350 | replays what the file loads as and removes it only when all of that applied; a refused write leaves those before it applied; an unreadable header stops it with nothing changed |
| Coordinator.AdmitsExactly | crates/adabt-engine/src/sharded.rs:288-308 | a journalled put is admitted if and only if it is accepted, fits, and no other record on its shard holds one of its constrained values; a delete always |
| Wire.ReadVarintOf | crates/adabt-storage/src/varint.rs:10-45 | a checked varint reads back as the number written, whatever follows |
| Wire.ReadChecked | crates/adabt-storage/src/varint.rs:24-45 | the group loop accepts exactly what the grammar of at most ten groups within 64 bits accepts, with its value |
| Wire.ReadVarintFollowed | crates/adabt-storage/src/varint.rs:24-45 | an accepted varint reads the same with more bytes behind it |
| Values.ValueRoundTrip | crates/adabt-storage/src/codec.rs:397-523 | for every value and whatever follows: decoding gives the value and exactly its bytes when nothing in it lies deeper than 64 levels, and an error otherwise |
| Values.ValueFollowed | crates/adabt-storage/src/codec.rs:453-523 | a buffer that decodes gives the same value with more bytes behind it, count guards included |
| Values.PartOfValueRefused | crates/adabt-storage/src/codec.rs:397-523 | no value decodes from a proper prefix of another's bytes |
| Values.DecodedWithin | crates/adabt-storage/src/codec.rs:453-458 | whatever decodes lies within the depth the decoder accepts, so it decodes again once written |
| Values.PutLast | crates/adabt-core/src/record.rs:64-70 | inserting past the last key of a sorted record appends |
| Journal.WriteReadsBack | crates/adabt-engine/src/sharded.rs:154-226 | a journal entry reads back as itself, whatever follows, if and only if its lengths fit 32 bits and no value lies too deep |
| Journal.ReadIsWritable | crates/adabt-engine/src/sharded.rs:173-226 | any entry that decodes, from any bytes, can be written and read back |
| Journal.PartOfWriteRefused | crates/adabt-engine/src/sharded.rs:173-226 | no entry decodes from a proper prefix of another's bytes |
| Journal.TornReads | crates/adabt-engine/src/sharded.rs:258-272 | cut anywhere, the entries region loads as exactly the entries wholly before the cut |
| Journal.TornJournalLoads | crates/adabt-engine/src/sharded.rs:243-273 | the same for the file: from four bytes on exactly the whole entries, an error for a torn header, nothing for an empty file |
| Journal.WholeExactly | crates/adabt-engine/src/sharded.rs:258-272 | the number of entries loaded is the greatest whose bytes end by the cut |
| Journal.JournalLoads | crates/adabt-engine/src/sharded.rs:243-286 | the whole file loads as the entries written if and only if each is one the format can hold |
| Journal.ReloadKeeps | crates/adabt-engine/src/sharded.rs:323-335 | what loaded, however torn, loads again unchanged after being rewritten with more entries behind it |
| Journal.DeepJournalLoads | crates/adabt-engine/src/sharded.rs:243-286 | a journal with an entry too deep loads as exactly the entries before it |
| Journal.DeepRefused | crates/adabt-engine/src/sharded.rs:173-226 | an entry whose lengths fit but some value of which is too deep is never read back |
| Journal.AppendWrite | crates/adabt-engine/src/sharded.rs:154-171 | appends exactly the specified entry bytes, field loop included |
| Journal.DecodeWrite | crates/adabt-engine/src/sharded.rs:173-226 | the cursor and its field loop decode exactly what the grammar of entries does |
| Journal.WriteJournal | crates/adabt-engine/src/sharded.rs:275-286 | the bytes handed to the file are the header and every entry in order |
| Journal.LoadJournal | crates/adabt-engine/src/sharded.rs:243-273 | the decode loop stops at the first entry that does not read and returns those before it |
| Expressions.ExprRoundTrip | crates/adabt-engine/src/exprcodec.rs:116-312 | for every expression, depth and suffix: reading gives the expression and exactly its bytes when no node is deeper than 32 and every literal is readable, and a refusal otherwise; the operand-count guard rejects none of them |
| Expressions.DecodeWhole | crates/adabt-engine/src/exprcodec.rs:231-241 | a whole buffer decodes to its expression exactly when that is readable, and never with bytes left over |
| Expressions.ExprsRoundTrip | crates/adabt-engine/src/exprcodec.rs:263-279 | an operand list reads back whole, or not at all |
| Expressions.Writer.Put | crates/adabt-engine/src/exprcodec.rs:116-181 | succeeds exactly on expressions within the depth limit, appending exactly their bytes |
| Expressions.Writer.PutEach | crates/adabt-engine/src/exprcodec.rs:137-146 | the operand loop succeeds exactly when every operand is within the limit, appending them in order |
| Expressions.Reader.Get | crates/adabt-engine/src/exprcodec.rs:243-312 | the cursor reads what the grammar reads from its position, and stops where it stops |
| Expressions.Reader.Count | crates/adabt-engine/src/exprcodec.rs:264-270 | a declared count is accepted exactly when that many bytes remain |
| Expressions.Reader.Str | crates/adabt-engine/src/exprcodec.rs:205-217 | a length-prefixed name is accepted exactly when it is there in full and well-formed UTF-8 |
| Expressions.Encoded | crates/adabt-engine/src/exprcodec.rs:110-114 | bytes exactly for expressions within the depth limit |
| Expressions.Decoded | crates/adabt-engine/src/exprcodec.rs:231-241 | the cursor-based decoder is the whole-buffer grammar, trailing bytes refused |
| Blobs.HexReadsBack | crates/adabt-engine/src/exprcodec.rs:322-350 | the hex name of a condition exists exactly within the depth limit, and gives the condition back exactly when its literals are readable |
| Blobs.BytesFromHex | crates/adabt-engine/src/exprcodec.rs:332-350 | the pair loop refuses odd lengths and non-digits and otherwise returns the bytes |
| Blobs.IndexReadsBack | crates/adabt-engine/src/database.rs:70-112 | an index-entry blob gives back its entries if and only if every key is readable, and never with bytes after it |
| Blobs.CutIndexRefused | crates/adabt-engine/src/database.rs:88-112 | a blob cut short is never taken for a smaller index |
| Blobs.DecodeBlob | crates/adabt-engine/src/database.rs:88-112 | the nested loops decode exactly what the grammar of blobs does, giving up on the whole at the first thing that does not decode |
| Blobs.WriteIndex | crates/adabt-engine/src/database.rs:70-81 | the nested loops write the count, then per group the key, its id count and its ids |
| Formats.VarintIs | crates/adabt-storage/src/varint.rs:10-22 | a varint is the shortest groups of seven bits, lowest first, all but the last marked |
| Formats.VarintReads | crates/adabt-storage/src/varint.rs:24-45 | the reader takes any groups, shortest or not, that are at most ten and add up to 64 bits, and refuses all others |
| Formats.WordIs | crates/adabt-storage/src/codec.rs:126-131 | a fixed-width number is its bytes, lowest first |
| Formats.ZigzagIs | crates/adabt-storage/src/codec.rs:165-168 | signed numbers are numbered 0, -1, 1, -2 and so on |
| Formats.TextExactly | crates/adabt-storage/src/codec.rs:145-155 | the bytes taken for text are exactly the UTF-8 forms of scalar values, as in section 4 of RFC 3629 |
| Formats.ValueLaid | crates/adabt-storage/src/codec.rs:397-451 | every value is its tag byte and its own form: truth values by tag alone, zigzag and plain varints, 8 bytes of a float or timestamp, a count before text, bytes, items and entries, scale and 16 bytes of a decimal |
| Formats.TagRead | crates/adabt-storage/src/codec.rs:453-523 | what is read is of the kind its tag byte names, and no tag past 11 is read |
| Formats.NestedReads | crates/adabt-storage/src/codec.rs:453-523 | a list in a list reads back at 64 levels and at no more |
| Formats.ExprLaid | crates/adabt-engine/src/exprcodec.rs:62-181 | every condition is its tag byte, an operator by its place where there is one, and its operands in order |
| Formats.NodeRead | crates/adabt-engine/src/exprcodec.rs:243-312 | what is read is of the kind its tag byte names |
| Formats.NotsRead | crates/adabt-engine/src/exprcodec.rs:243-312 | a condition negated 32 times reads back, and 33 times does not |
| Formats.EntryLaid | crates/adabt-engine/src/sharded.rs:154-171 | a journal entry is a 32-bit length and the collection, a 64-bit id, and 0, or 1 and a 32-bit count of names and values |
| Formats.JournalLaid | crates/adabt-engine/src/sharded.rs:275-286 | a journal is the letters XSH1 and its entries |
| Formats.GroupLaid | crates/adabt-engine/src/database.rs:70-84 | an index entry is its key, a 64-bit count and that many 64-bit ids |
| Formats.IndexLaid | crates/adabt-engine/src/database.rs:70-84 | an index blob is a 64-bit count and its entries |
| Formats.HexDigits | crates/adabt-engine/src/exprcodec.rs:322-331 | each byte is two lower-case digits, the high one first |
| Formats.DigitsRead | crates/adabt-engine/src/exprcodec.rs:332-350 | a digit is read in either case, and nothing else is |
| Formats.RowLaid | crates/adabt-engine/src/column.rs:243-275 | a delta row is a zero byte for a null, else the varint of one more than the zigzag of its 64-bit offset |
| Varint.ZigzagRoundTrip | crates/adabt-engine/src/column.rs:160-166 | zigzag inverts, and is all ones only at the least integer |
| Varint.Write | crates/adabt-engine/src/column.rs:168-178 | the byte loop appends exactly the unsigned LEB128 encoding |
| Varint.ReadEncoded | crates/adabt-engine/src/column.rs:180-191 | reading an encoding with anything behind it gives its value and its length |
| Varint.ReadFrom | crates/adabt-engine/src/column.rs:180-191 | the shifting loop reads the first run of groups and no more |
| DeltaColumn.CellRoundTrip | crates/adabt-engine/src/column.rs:243-275 | a row's bytes read back as what the column keeps, begin with zero exactly for an absence, and are at most ten |
| DeltaColumn.CodeRoundTrip | crates/adabt-engine/src/column.rs:411-451 | an offset is lost, and only then, when it is 2^63 above the base |
| DeltaColumn.KeptInReach | crates/adabt-engine/src/column.rs:411-451 | a value at or above the base survives if and only if it is not 2^63 above it |
| DeltaColumn.RunReadsBack | crates/adabt-engine/src/column.rs:281-496 | after any run of pushes, compressions, demotions and disabling, each row of a one-variant column within reach is what was pushed |
| DeltaColumn.OutOfReachIsLost | crates/adabt-engine/src/column.rs:411-451 | 128 least integers and then zero: in order, and the zero reads back absent |
| DeltaColumn.Column.Get | crates/adabt-engine/src/column.rs:339-373 | a row read through the block directory, or the plain form, is the row the column stands for |
| DeltaColumn.Column.RowSpan | crates/adabt-engine/src/column.rs:243-275 | the span found by skipping at most a block of rows is exactly the row's bytes |
| DeltaColumn.Column.MaybeCompress | crates/adabt-engine/src/column.rs:281-337 | the column stands for the same rows after a switch of form, and switches only under the code's own conditions |
| DeltaColumn.Column.PushInt | crates/adabt-engine/src/column.rs:386-451 | appends one value to what the column stands for, demoting on a descent, absent when the variant differs |
| DeltaColumn.Column.PushNull | crates/adabt-engine/src/column.rs:474-496 | appends one absence in either form, keeping the directory |
| DeltaColumn.Column.DeltaRows | crates/adabt-engine/src/column.rs:218-239 | expanding the bytes gives every row the column stands for |
| DeltaColumn.TurnsDelta | crates/adabt-engine/src/column.rs:281-337 | a push turns a plain column to the delta form if and only if that is enabled, the value is of its variant, the rows are then 128 or that doubled and doubled, and no present value is below an earlier one |
| DeltaColumn.BlocksEnd | crates/adabt-engine/src/column.rs:243-275 | the directory holds the 32-bit byte offset at which each block of 32 rows ends |
| TopK.Select | crates/adabt-exec/src/exec.rs:1216-1238 | the heap of k, trading its worst for a better row, ends as the first k rows of the full sort, for every k, whenever the comparison is lawful of the rows and none tie |
| TopK.PlaceBeyond | crates/adabt-exec/src/exec.rs:1226-1234 | a row not better than the k-th changes nothing in the first k |
| TopK.PlaceAmong | crates/adabt-exec/src/exec.rs:1226-1234 | a better one takes the k-th row's place among them |
| TopK.UntiedSame | crates/adabt-exec/src/exec.rs:1209-1215 | with no ties the sorted result does not depend on the order rows are met in |
| Columns.PushedLast | crates/adabt-engine/src/column.rs:375-496 | the new row reads as the value pushed if and only if the value suits the column and lies in its reach |
| Columns.PushedBefore | crates/adabt-engine/src/column.rs:281-496 | an earlier row reads as before if and only if the push does not compress the column and lose it |
| Columns.PushedSound | crates/adabt-engine/src/column.rs:375-496 | every push keeps a column sound and one row longer |
| Columns.OneKind | crates/adabt-engine/src/column.rs:339-373 | a column, the catch-all aside, reads as numbers only or as no numbers |
| ColumnStore.CandidateOrder | crates/adabt-engine/src/column.rs:67-81 | the order of candidates is the executor's order of whole rows on that key, absence and id tiebreak included |
| ColumnStore.BestIsSortLimit | crates/adabt-engine/src/column.rs:761-790 | the k best candidates from rows in any order are the ids of a full sort of the table and a limit, whenever the sort orders those rows lawfully |
| ColumnStore.Store.TopkIds | crates/adabt-engine/src/column.rs:761-790 | nothing when no column has the field; otherwise, of every table the columns give back that the sort orders lawfully, the ids of Limit over Sort over a scan: as many as there are up to k, no id twice, each row coming no later than those after it and than every row left out, by presence of the field, then value, both turned round when descending, then id |
| ColumnStore.Store.Append | crates/adabt-engine/src/column.rs:607-636 | what the columns give back gains exactly this record if and only if each value suits its column's kind and lies in its reach, and no push turns a column and loses an earlier value |
| ColumnStore.Store.MarkDead | crates/adabt-engine/src/column.rs:688-696 | what the columns give back loses one id and nothing else |
| ColumnStore.Store.Write | crates/adabt-engine/src/database.rs:1857-1860 | tombstone then append replaces one record of what the columns give back, under exactly that condition |
| ColumnStore.KindsSuffice | crates/adabt-engine/src/column.rs:607-636 | without delta columns the record reads back, and no other is disturbed, if and only if every value is of its column's kind |
| ColumnStore.FirstKindDecides | crates/adabt-engine/src/column.rs:498-510 | a second value reads back if and only if it is of the same kind as the first: truth values, signed, unsigned, floats, texts, or any other that is no integer |
| ColumnStore.LostToItsColumn | crates/adabt-engine/src/column.rs:386-472 | text in a column made for an integer, and an integer in the catch-all, read back absent |
| ColumnStore.RunReads | crates/adabt-engine/src/database.rs:1855-1880 | over every run of writes, deletes and switches, the columns read as the heap all the way if and only if they could take each record as it was written |
| ColumnStore.Store.DisableDelta | crates/adabt-engine/src/column.rs:582-598 | switching the delta form off expands every column and changes nothing read |
| ColumnStore.Store.Project | crates/adabt-engine/src/column.rs:702-734 | one row for each live id, ids ascending, holding of its record exactly the named fields |
| ColumnStore.Store.Get | crates/adabt-engine/src/column.rs:792-806 | point access finds exactly the live ids, and of the record exactly the named fields |
| ColumnStore.Store.Aggregate | crates/adabt-engine/src/column.rs:1104-1156 | the groups are those of observing, in the order written, the live rows that the test passes as it sees them in the one reused scratch record; while sums are exact that answers as the executor's scan of the table under exactly the condition of ColumnSums.WrittenOrder |
| ColumnStore.KindsOneSort | crates/adabt-engine/src/column.rs:339-373 | with no catch-all column under a sum, the values it meets are all numbers or none is |
| ColumnSums.SameOrder | crates/adabt-engine/src/column.rs:1183-1208 | over the same rows in the same order, columns answer as the executor's scan if and only if, group by group, a sum that met anything met a number, an average is besides the same over the values as over the numbers, and, without grouping, some row is there |
| ColumnSums.WrittenOrder | crates/adabt-engine/src/database.rs:3224-3285 | while sums are exact the same holds of the rows in the order they were written against the table in id order |
| ColumnSums.MeanStands | crates/adabt-engine/src/column.rs:1183-1208 | rounded to nearest, over at most 2^51 numbers, an average that counted more values is the same if and only if the sum is zero or not finite |
| ColumnSums.OneSortStands | crates/adabt-engine/src/column.rs:1183-1208 | of values all numbers or none, columns stand for the scan if and only if all are |
| ColumnSums.TextBesideNumber | crates/adabt-engine/src/column.rs:1183-1208 | a sum over a number and a text stands |
| ColumnSums.TextsSumToZero | crates/adabt-engine/src/column.rs:1183-1208 | a sum over texts: null by scan, zero by columns |
| ColumnSums.NothingHasNoRow | crates/adabt-engine/src/database.rs:3224-3285 | an ungrouped aggregate over nothing: one row by scan, none by columns |
| ColumnSums.OrderShows | crates/adabt-engine/src/column.rs:1183-1208 | 2^53, 1 and 1: the scan in id order ends at 2^53, columns written in another order at 2^53 + 2 |
| ColumnStore.Store.Load | crates/adabt-engine/src/column.rs:1119-1129 | the scratch record holds exactly the row's named fields, whatever the last row left in it |
| ColumnStore.BestOfTable | crates/adabt-engine/src/column.rs:761-790 | the ids of a limit over a sort are the best ones of the live records |
| Aggregates.MetIs | crates/adabt-exec/src/exec.rs:1271-1359 | the groups listed are exactly those scanned, each once |
| Aggregates.Ungrouped | crates/adabt-exec/src/exec.rs:1271-1359 | without grouping there is one answer row, for no rows too |
| Aggregates.SameKeys | crates/adabt-exec/src/exec.rs:1271-1359 | which groups there are fixes the order they are answered and numbered in, when the order and equality of the values grouped can be relied on |
| Aggregates.KindsFaithful | crates/adabt-exec/src/exec.rs:1271-1280 | order and equality can be relied on of some rows when they can of the kinds of values their fields hold |
| Aggregates.ListedOnce | crates/adabt-exec/src/exec.rs:1271-1280 | every listing of the groups sorts to one order |
| Totals.ScanTotals | crates/adabt-exec/src/exec.rs:1271-1359 | a scan within the budget computes each group's true totals in whatever order it meets the rows |
| Totals.ScanBests | crates/adabt-exec/src/exec.rs:1271-1359 | a scan keeps a least and a greatest value of each group, of values lawfully ordered |
| Totals.AnyOrder | crates/adabt-exec/src/exec.rs:1271-1359 | while sums are exact, and the values compared can be relied on, the answer rows do not depend on the order rows are met in |
| Totals.IntegersAreExact | crates/adabt-engine/src/matview.rs:143-155 | while the sum is exact each summed integer counts as the very integer it holds |
| Answers.AnswerCells | crates/adabt-exec/src/exec.rs:1271-1359 | every answer row is of one group of rows and shows its key; a count is the number of its rows, or of those with the field; a sum the exact total of its numbers, or null without one; an average that total over their number rounded once, or null; a least or greatest value one some row of the group holds with none strictly better, or null |
| Answers.BelongsIs | crates/adabt-exec/src/exec.rs:1271-1280 | a record is of the group an answer row shows if and only if its representatives in the grouping fields are those shown |
| Answers.RowShown | crates/adabt-exec/src/exec.rs:1271-1359 | every record is of the group of some answer row |
| Answers.RowShownOnce | crates/adabt-exec/src/exec.rs:1271-1359 | and of no other |
| Answers.RowOfSome | crates/adabt-exec/src/exec.rs:1271-1359 | with grouping every answer row is of some record; without there is one answer row, rows or not |
| Answers.AnswersAscend | crates/adabt-exec/src/exec.rs:1271-1359 | answer rows are numbered from zero in the order of the first grouping field they differ in, null first |
| Floats.DoubleRounds | crates/adabt-engine/src/matview.rs:143-155 | rounding to nearest, ties to even, with 53 bits is exact on every integer up to 2^53 |
| Floats.FirstGap | crates/adabt-engine/src/matview.rs:143-155 | 2^53 + 1 rounds to 2^53, and 2^53 + 2 to itself |
| Floats.MeansApart | crates/adabt-engine/src/column.rs:1183-1208 | zero is the only sum that two counts, the smaller at most 2^51, divide to one rounded quotient |
| Floats.NearestWhole | crates/adabt-engine/src/matview.rs:143-155 | rounding takes a nearest whole number, and of two the even one |
| Matview.InsertedOk | crates/adabt-engine/src/matview.rs:190-211 | an insert keeps every group's totals the true totals of the rows present, while the budget holds |
| Matview.RemovedOk | crates/adabt-engine/src/matview.rs:213-241 | removing a present record leaves the true totals of the rest |
| Matview.RunOk | crates/adabt-engine/src/matview.rs:143-241 | after every run of inserts and removes, totals of every exact aggregate are true totals, and the magnitudes present add up to no more than was spent, itself below 2^53 |
| Matview.ViewIsScan | crates/adabt-engine/src/matview.rs:266-309 | while the view answers, its answer by group is a fresh scan's in any order if and only if no Sum had contributions come and go while their group stayed |
| Matview.ViewRowsAreScan | crates/adabt-engine/src/matview.rs:266-309 | row by row, in order and numbered, the view is that scan if no Sum had contributions come and go while their group stayed; and if no two outputs share a name, only then |
| Matview.SawIsCame | crates/adabt-engine/src/matview.rs:190-241 | what an accumulator remembers seeing is exactly that a contribution came while the group stayed |
| Matview.EmptiedSum | crates/adabt-engine/src/matview.rs:220-229 | one value come and gone: the view says zero where a scan says null |
| Matview.View.InsertRow | crates/adabt-engine/src/matview.rs:190-211 | the object's groups and budget after an insert are the specified totals |
| Matview.View.RemoveRow | crates/adabt-engine/src/matview.rs:213-241 | the object's groups and budget after a remove are the specified totals |
| Matview.View.ChargeOne | crates/adabt-engine/src/matview.rs:143-155 | spends a magnitude and turns the aggregate inexact for good at a fraction or past 2^53 |
| Matview.TrustedExactly | crates/adabt-engine/src/matview.rs:143-155 | a view is trusted if and only if all it was ever charged for is whole and adds up to less than 2^53; whole numbers that stay below that keep it so |
| Matview.PresentGroup | crates/adabt-engine/src/matview.rs:190-241 | a record that is there has its group in the view |
| Bitsets.ClearLowest | crates/adabt-index/src/lib.rs:329-334 | `w & (w - 1)` is smaller than `w` and has exactly its other bits |
| Bitsets.SetHas | crates/adabt-index/src/lib.rs:299-305 | setting a bit, growing as needed, adds exactly that id |
| Bitsets.ClearHas | crates/adabt-index/src/lib.rs:307-312 | clearing removes exactly that id |
| Bitsets.GetHas | crates/adabt-index/src/lib.rs:314-317 | the masked test is membership |
| Bitsets.EmptyHas | crates/adabt-index/src/lib.rs:319-321 | no word set if and only if no id is held |
| Bitsets.Ids | crates/adabt-index/src/lib.rs:326-337 | the bit-clearing loop lists exactly the held ids, strictly ascending |
| Indexes.Core.Insert | crates/adabt-index/src/lib.rs:210-224 | the pairs gain exactly (key, id); the lists stay ascending; the count grows by one and the byte sum by 8, and by 48 and the key for a new key, unless the pair was there |
| Indexes.Core.Remove | crates/adabt-index/src/lib.rs:226-239 | the pairs lose exactly (key, id), an emptied key goes; the count and the byte sum go down by as much, and the saturating byte count never saturates |
| Indexes.Core.Lookup | crates/adabt-index/src/lib.rs:241-243 | the strictly ascending list of exactly the ids filed under the key |
| Indexes.BitmapIndex.Insert | crates/adabt-index/src/lib.rs:390-396 | the same set semantics over bit sets |
| Indexes.BitmapIndex.Remove | crates/adabt-index/src/lib.rs:398-409 | the same, an emptied key going |
| Indexes.BitmapIndex.Lookup | crates/adabt-index/src/lib.rs:411-413 | the strictly ascending list of exactly the ids filed under the key |
| Indexes.SameAnswer | crates/adabt-index/src/lib.rs:241-413 | a look-up over ascending id lists and one over bit sets return the same listing when they hold the same pairs of the same keys |
| Indexes.ListsOnce | crates/adabt-index/src/lib.rs:38-50 | an ascending listing is determined by what it lists |
| Upkeep.IndexedAgrees | crates/adabt-engine/src/database.rs:1835-1847 | telling an index of any shape of a new record takes it to the index a scan of the grown heap would build |
| Upkeep.UnindexedAgrees | crates/adabt-engine/src/database.rs:1865-1873 | telling it of a departure takes it to the index of the heap without that record, partial conditions unconsulted |
| Upkeep.CoveringServes | crates/adabt-engine/src/database.rs:3351-3382 | a covering index serves every id it finds: of the covered fields those the record has, each as it is there, and no other |
| Upkeep.FoundIsReal | crates/adabt-engine/src/database.rs:1803-1833 | looking in the first index that answers to a field never finds a conflict that is not there, and finds each one that is when the values it would compare hash alike where equal |
| Upkeep.InsertKeeps | crates/adabt-engine/src/database.rs:3497-3514 | where equal values that can be stored hash alike, an insert keeps agreement and uniqueness; it is refused as a duplicate exactly on a real conflict, as far as its own values hash alike too |
| Upkeep.UpdateKeeps | crates/adabt-engine/src/database.rs:3528-3549 | the same for an update, the record replaced never conflicting with itself |
| Upkeep.DeleteKeeps | crates/adabt-engine/src/database.rs:3551-3577 | a delete keeps agreement and uniqueness |
| Upkeep.ConstrainKeeps | crates/adabt-engine/src/database.rs:1747-1776 | where equal values that can be stored hash alike, a constraint is accepted if and only if the live records already satisfy it, and has a backing index from then on |
| Upkeep.CreateKeeps | crates/adabt-engine/src/database.rs:1495-1578 | a created index agrees with the heap, whatever its shape |
| Upkeep.BatchKeeps | crates/adabt-engine/src/database.rs:1272-1321 | a batch keeps agreement if and only if it does not, clear of conflict and refusal, meet a first record too big for its page behind one some index files; any other failure changes nothing |
| Upkeep.StrandedRow | crates/adabt-storage/src/heap.rs:1111-1146 | such a batch hides a row from its unique constraint, and the next insert of the same value is let in |
| Upkeep.StepKeeps | crates/adabt-engine/src/database.rs:3497-3577 | each kind of step, commits included, keeps every index and constraint if and only if it strands no row |
| Upkeep.RunKeeps | crates/adabt-engine/src/database.rs:1178-1321 | over every run that strands no row, where equal values that can be stored hash alike, each index is the comprehension over the heap its shape demands and no two live records share a constrained value |
| Upkeep.AppliedKeeps | crates/adabt-engine/src/database.rs:1234-1244 | a commit's second pass, whole or cut short, leaves every index and constraint standing |
| Upkeep.KindsAnswer | crates/adabt-index/src/lib.rs:157-189 | hash and bitmap indexes always answer alike, and an ordered one answers as they do if and only if no filed value equals the one asked for and hashes apart |
| Upkeep.ApartLands | crates/adabt-engine/src/database.rs:1803-1833 | two storable records whose values are equal and hash apart are both let in under a unique constraint |
| Upkeep.UniqueExactly | crates/adabt-engine/src/database.rs:1803-1833 | under any schema and page limit, unique constraints hold over every run that strands no row if and only if equal values that storable records hold hash alike |
| Upkeep.OneSortAlike | crates/adabt-core/src/value.rs:306-326 | by the engine's equality and hashing, equal values stored hash alike under a schema whose numbers are all whole, or all small decimals and whole numbers up to 2^53 |
| Upkeep.LookupIs | crates/adabt-index/src/lib.rs:157-189 | a look-up by any shape of index answers exactly the live records that hold equal values - hashed alike, for all but an ordered index - in every field asked, and meet the condition of a partial one |
| Upkeep.CompositeKeyIs | crates/adabt-index/src/lib.rs:907-920 | a composite key lists the hashed values of all its fields in order, and there is none if a field is missing |
| Upkeep.InsertLeaves | crates/adabt-engine/src/database.rs:3497-3514 | an insert leaves the heap with the normalized record at its id, and answers nothing, if and only if no other record shares a constrained value, it is accepted, its id is new and it fits; otherwise all is as it was and the answer names the first of these that failed |
| Upkeep.UpdateLeaves | crates/adabt-engine/src/database.rs:3528-3549 | the same of an update, whose id may be there or not |
| Upkeep.DeleteLeaves | crates/adabt-engine/src/database.rs:3551-3577 | a delete leaves the heap without exactly that id, and the same indexes and constraints |
| Upkeep.CreateLeaves | crates/adabt-engine/src/database.rs:1495-1578 | an index of the shape asked is in the list afterwards, behind all those that were |
| Upkeep.ConstrainLeaves | crates/adabt-engine/src/database.rs:1747-1776 | an accepted constraint joins the others, a refused one changes nothing |
| Upkeep.BatchLeaves | crates/adabt-engine/src/database.rs:1272-1321 | a batch answers nothing if and only if no value is found held or met twice, every id is new and there once, and every record is accepted and fits; then every record of it is in the heap and no other touched |
| Upkeep.BatchRefuses | crates/adabt-engine/src/database.rs:1272-1321 | what a refused batch answers: a conflict if there is any, else why the first record at fault is refused, else that one does not fit; only the last changes anything |
| Upkeep.CommitLeaves | crates/adabt-engine/src/database.rs:1178-1245 | a commit that answers nothing has laid the last write to each id over the heap, and does so for puts that can be stored beside the heap and each other; refused by the first pass it changes nothing and says what the first put at fault was refused for, cut short by the second it is the overlay of the writes before the one refused |
| Collections.ShapedIndex.IndexRecord | crates/adabt-index/src/lib.rs:1225-1413 | each shape's own reaction to a record, over the id lists or bit sets of its kind, with the covering rows' byte count an exact sum |
| Collections.ShapedIndex.UnindexRecord | crates/adabt-index/src/lib.rs:1252-1426 | each shape's own reaction to a departure; a covering row goes with its id |
| Collections.Collection.CheckUnique | crates/adabt-engine/src/database.rs:1803-1833 | the loop over constrained fields finds a conflict exactly when one of the look-ups does |
| Collections.Collection.Insert | crates/adabt-engine/src/database.rs:3497-3514 | outcome and whole new state, read off the index objects, are the specified insert; the heap holds the normalized record if it answers nothing, and is as it was otherwise |
| Collections.Collection.Update | crates/adabt-engine/src/database.rs:3528-3549 | outcome and whole new state, read off the index objects, are the specified update: old entries out, new ones in; the heap holds the normalized record if it answers nothing, and is as it was otherwise |
| Collections.Collection.Delete | crates/adabt-engine/src/database.rs:3551-3577 | the whole new state, read off the index objects, is the specified delete; the heap loses exactly that id |
| Collections.Collection.InsertBatch | crates/adabt-engine/src/database.rs:1272-1321 | outcome and whole new state, read off the index objects, are the specified batch: all checked, all written, then all indexed, torn at the page limit; answering nothing, every record of it is in the heap and no other is touched |
| Collections.Collection.Commit | crates/adabt-engine/src/database.rs:1178-1245 | outcome and whole new state are the specified commit: all puts checked first, the first refused naming why, then each write through the ordinary paths; answering nothing, the heap is overlaid with the last write to each id |
| Collections.Collection.CreateIndex | crates/adabt-engine/src/database.rs:1495-1578 | a new index object joins the list, built from the heap, unless one of that shape is there; one of that shape is there afterwards |
| Collections.Collection.FindClash | crates/adabt-engine/src/database.rs:1803-1833 | a look-up through the first index object that answers to the field finds any id but the excluded one |
| Collections.Collection.BatchCheck | crates/adabt-engine/src/database.rs:1292-1312 | the loops over records and fields find a conflict exactly when an index does, or two records of the batch share a value as it hashes |
| Collections.Collection.Build | crates/adabt-engine/src/database.rs:1563-1567 | the scan builds an index object whose content is exactly what its shape demands of the heap |
| Collections.Collection.AddUnique | crates/adabt-engine/src/database.rs:1747-1776 | refused exactly when two live records share a value as it hashes; the constraint and its index object otherwise |
| Collections.Collection.AnyShared | crates/adabt-engine/src/database.rs:1756-1769 | one pass remembering each value finds two that share a hash key exactly when there are two |
| ResultCaches.Transparent | crates/adabt-engine/src/database.rs:2491-2588 | any run of queries, announced writes and resizes gives the answers it would give with no cache |
| ResultCaches.TornShows | crates/adabt-engine/src/database.rs:1313-1318 | after rows land unannounced, and while their collection is written no more, a query of it is answered wrongly if and only if its entry was cached, has stayed cached ever since, and the rows now give another answer |
| ResultCaches.QuietRun | crates/adabt-engine/src/caches.rs:197-263 | over any run that leaves a collection unwritten, a key answers as it was cached for as long as it stays cached, and afresh from then on |
| ResultCaches.OperationsProper | crates/adabt-engine/src/caches.rs:180-272 | every operation lists each cached key exactly once and keeps the size within capacity |
| ResultCaches.ResultCache.EvictOne | crates/adabt-engine/src/caches.rs:187-194 | the oldest key goes, with its entry and nothing else |
| ResultCaches.ResultCache.EvictDown | crates/adabt-engine/src/caches.rs:180-185 | evicting the oldest until it fits leaves exactly the newest entries |
| ResultCaches.ResultCache.Get | crates/adabt-engine/src/caches.rs:197-219 | hits only at the asked epoch, and drops an entry it finds stale |
| ResultCaches.ResultCache.Insert | crates/adabt-engine/src/caches.rs:236-263 | keeps nothing when disabled, replaces in place, and evicts only for a new key |
| ResultCaches.ResultCache.InvalidateCollection | crates/adabt-engine/src/caches.rs:265-272 | drops exactly the entries of one collection, order kept |
| ResultCaches.ProbeDoes | crates/adabt-engine/src/caches.rs:197-219 | a probe answers the rows filed under the key at just that epoch, and drops an entry of any other epoch |
| ResultCaches.InsertDoes | crates/adabt-engine/src/caches.rs:236-263 | an insert files its rows unless there is no room at all; a full cache loses the key filed first, and no other |
| ResultCaches.InvalidateDoes | crates/adabt-engine/src/caches.rs:265-272 | invalidation drops exactly what was filed for the collection |
| ResultCaches.ResizeDoes | crates/adabt-engine/src/caches.rs:180-185 | resizing keeps exactly the newest entries there is room for |
| ResultCaches.StepDoes | crates/adabt-engine/src/database.rs:2491-2588 | a write moves its collection one epoch on and leaves nothing filed for it and everything for others; a torn one changes the rows alone |
| ResultCaches.AskDoes | crates/adabt-engine/src/database.rs:2491-2588 | a query is answered by what is filed at its collection's epoch, else afresh and then filed |
| Inference.WidthHolds | crates/adabt-engine/src/infer.rs:99-103 | the slot sized for a content length can hold it if and only if the sizing stays within 32 bits: content up to 2^32 - 6 |
| Inference.InferenceAccepts | crates/adabt-engine/src/infer.rs:159-224 | the inferred schema is well formed and takes every record like a sampled one: the same fields, the same kinds, text up to the headroom longer |
| Inference.InferenceTakesSample | crates/adabt-engine/src/infer.rs:159-224 | every sampled record is accepted |
| Inference.InferredIsFrozen | crates/adabt-engine/src/infer.rs:200-215 | no fall-back is ever taken: the settled fields themselves form a valid schema, Fixed only with every field settled |
| Inference.SettledTakes | crates/adabt-engine/src/infer.rs:67-96 | a settled type takes every value like one it was settled from |
| Inference.GatheredSaw | crates/adabt-engine/src/infer.rs:43-62 | the evidence counts presence exactly and remembers every kind and length observed |
| Inference.Gather | crates/adabt-engine/src/infer.rs:159-167 | the loops over records and fields gather each field's evidence |
| Inference.Infer | crates/adabt-engine/src/infer.rs:159-224 | the loops compute the schema that Inference.FieldsFromSample and Inference.ModeFromSample describe |
| Inference.Validate | crates/adabt-core/src/schema.rs:233-257 | accepts exactly schemas with fields unless dynamic, distinct names, and text slots with room for the length prefix and one byte more |
| Inference.ValidateRecord | crates/adabt-core/src/schema.rs:300-357 | accepts exactly records that bring no undeclared field where the mode forbids it, hold a value of the right kind and length in every field they hold, and lack only nullable ones |
| Inference.FieldsFromSample | crates/adabt-engine/src/infer.rs:159-224 | a field is in the schema if and only if its values in the sample are of one kind or of the two integer kinds; its type is that kind, its slot the longest text plus headroom, prefix and one; it is nullable if and only if some sampled record lacks it or holds null |
| Inference.ModeFromSample | crates/adabt-engine/src/infer.rs:200-215 | the schema is fixed if and only if some field was met and every field met is in it, dynamic if and only if it has no field |
| Inference.InferenceRefuses | crates/adabt-engine/src/infer.rs:159-224 | a record the schema accepts has every field all the sample had, holds in each field only what its values there give reason to take, and, if all fields are in the schema, has no other |
| Numerics.RescaleExactly | crates/adabt-core/src/value.rs:54-61 | answers the one number of units that is the same fraction, if and only if 128 bits hold it and the scales are within 38 places |
| Numerics.CmpExactIsRational | crates/adabt-core/src/value.rs:84-92 | the exact comparison answers if and only if both numbers fit 128 bits at the finer scale, and then as the fractions compare |
| Numerics.ArithIsRational | crates/adabt-core/src/value.rs:118-162 | an exact sum or difference is that of the fractions; an exact product or quotient is within one unit of the last place, towards zero |
| Numerics.CmpExactOrders | crates/adabt-core/src/value.rs:84-92 | on numbers that fit at each other's scales the comparison is antisymmetric and transitive |
| Numerics.ArithAnswers | crates/adabt-core/src/value.rs:118-162 | for each operation, an exact answer and no answer at all each if and only if a condition on units and scales holds |
| Numerics.PastThirtyEight | crates/adabt-core/src/value.rs:118-162 | at a scale past 38 multiplying falls back to floats where dividing answers nothing |
| Equality.FineLawful | crates/adabt-core/src/value.rs:278-303 | on decimals of at most 2^53 units and 22 places together with whole numbers up to 2^53 the engine's order is a total preorder |
| Equality.WholesLawful | crates/adabt-core/src/value.rs:278-303 | on 64-bit whole numbers it is one too |
| Equality.FloatsLawful | crates/adabt-core/src/value.rs:278-303 | on floats together with whole numbers up to 2^53 it is one as well |
| Equality.ComparableLawful | crates/adabt-core/src/value.rs:84-92 | and on any numbers of which every two fit at the finer scale |
| Equality.NumbersFlip | crates/adabt-core/src/value.rs:278-303 | turning two numbers round turns the comparison round, whichever they are |
| ValueOrder.OrderFlips | crates/adabt-core/src/value.rs:278-303 | the same of any two values |
| ValueOrder.KindsLawful | crates/adabt-core/src/value.rs:189-204 | values of every kind are lawfully ordered together once the numbers among them are |
| ValueOrder.MixedUnordered | crates/adabt-core/src/value.rs:278-303 | the float 2^53 equals both 2^53 and 2^53 + 1, which differ, as stored values |
| ValueOrder.Represented | crates/adabt-exec/src/exec.rs:1271-1280 | wherever the order is one, equality has representatives to group by |
| ValueOrder.OrderedFaithful | crates/adabt-exec/src/exec.rs:1271-1280 | an aggregate over values lawfully ordered can be relied on |
| ValueOrder.TextsCompare | crates/adabt-core/src/value.rs:189-204 | texts compare as their characters do at the first place they differ, and a text comes before its extensions |
| ValueOrder.KindsRank | crates/adabt-core/src/value.rs:189-204 | false before true, truth values before numbers, numbers before texts, texts before all else |
| ValueOrder.NumbersAreReals | crates/adabt-core/src/value.rs:278-303 | numbers that are all whole, or small decimals and whole, or floats and whole, compare as the reals they are |
| ValueOrder.SpecialsLast | crates/adabt-core/src/value.rs:278-303 | a float that is no real comes after every real, and equals another |
| Equality.EqualToOneNotToEachOther | crates/adabt-core/src/value.rs:278-303 | a decimal that fits no common scale equals two whole numbers that differ |
| Equality.NoOrderOfAllDecimals | crates/adabt-core/src/value.rs:278-303 | so the engine's order on all numbers is no total preorder |
| Equality.EqualThroughAFloat | crates/adabt-core/src/value.rs:278-303 | nor with a float between 2^53 and 2^53 + 1 |
| Equality.EqualHashAlike | crates/adabt-core/src/value.rs:306-326 | numbers that compare equal hash alike when every decimal among them has at most 2^53 units and 22 places |
| Equality.EqualHashedApart | crates/adabt-core/src/value.rs:306-326 | 2^53 + 1 and the same number with one decimal place compare equal and hash apart |
| Allocation.NextIdIsLeast | crates/adabt-engine/src/sharded.rs:750-770 | the id chosen is the least of the shard's residue class that its counter has not passed |
| Allocation.NextIsLeastUnused | crates/adabt-engine/src/sharded.rs:750-770 | it is the least id of the class never stored if and only if every smaller one is stored |
| Allocation.StoreKeepsDense | crates/adabt-engine/src/sharded.rs:750-770 | storing an id leaves no gap if and only if it is no further than the one due next |
| Allocation.ShardedIds.InsertAuto | crates/adabt-engine/src/sharded.rs:750-770 | the id was never stored on any shard; a refused write leaves every counter as it was |

## Left out

- Files, pages, the buffer pool, the write-ahead log and page placement: a store is its version chains. A store write either lands or is refused for validation, an existing id or the page limit; I/O errors and cancellation are not modelled.
- Transactions.Database.Commit: keys are visited in some order, not the sorted one; the result is stated for every order. A collection that does not exist is not modelled, and the values of the key-clustering hint are not either. The unique check looks at the rows themselves; that looking through an index finds the same is Upkeep.FoundIsReal.
- Versions.HeapStore.MaybeReclaim: reclamation may follow any write, whatever the retained count; the threshold is not modelled.
- Serializability.StrictRunsAreSerial: schemas do not change during a run.
- Serializability.SnapshotIsolation: lost updates are excluded over keys whose contents a transaction changed; deleting an absent key leaves no stamp, so two overlapping transactions may both do that.
- Sharding.ShardingPreservesMeaning: plans without joins; a point read by id is routed to its owner and stated apart.
- Sorting.Sort: the stable sort is insertion; the library's own gives the same rows wherever the comparison is lawful of them, and is not modelled where it is not. SortFilters.SortsExactly needs of a sort only that it puts two records in order.
- ValueOrder.ByValue: the order of timestamps, byte strings, lists and maps is given, and must be lawful of those at hand; the numbers nested in them are not looked at.
- GroupFilters.FilterOverAggregate: the aggregate stands over filters and sorts of a scan, and the filter on it; other plans with a filter above an aggregate are covered by Sharding.ShardedIs only.
- Coordinator.RecoveryConverges: the journal file is rewritten whole or not at all, and shard writes are durable; no other write reaches the shards while a journal is pending. Tearing of the file is stated in `Journal`, and commits with unreadable entries by Coordinator.RedrivesExactly.
- Aggregates.MetIs: group keys, and least and greatest values, are shown as a chosen one among equal values, where the code shows the first met. Where the values grouped are not lawfully ordered, what an ordered map of them does is not modelled.
- Answers.AnswerCells: the values summed or averaged are whole and their sizes add up to less than 2^53 in all; beyond that a sum depends on the order of the rows. Of two outputs of one name the first is overwritten, and is not shown.
- Answers.RowShownOnce: no output takes the name of a grouping field; the same holds of Answers.BelongsIs, Answers.RowShown, Answers.RowOfSome and Answers.AnswersAscend, which tell groups by the fields shown.
- Floats.DoubleRounds: exponents are unbounded, the values that are not finite are one value, and the two zeros are one.
- Equality.EqualHashAlike: equality and hashing of numbers only; the other kinds compare and hash by content.
- Matview.ViewIsScan: the plumbing that picks which view answers which query is not modelled.
- DeltaColumn.RunReadsBack: columns of one integer variant; the block directory is 32-bit, so reads are stated for columns under 4 GiB. Integer overflow wraps, as in a release build.
- ColumnStore.Store.Append: text columns are plain, without their dictionary; an integer column is the state `DeltaColumn` proves its bytes stand for. Stored records hold no explicit nulls.
- ColumnStore.Store.TopkIds: candidates are gathered before selection rather than as they are met, and what is answered where the sort is not lawful of the rows is not stated.
- ColumnStore.RunReads: rebuilding a copy to shed its dead rows is not a step of a run.
- ColumnSums.MeanStands: counts up to 2^51 numbers.
- TopK.Worst: stands for the standard library's heap, whose `peek` is a maximum.
- Indexes.Core.Insert: binary search in a sorted list is a function of the list, and a key is already the form its kind compares, hashed or canonical; range scans are not modelled, being offered by one kind only.
- Collections.ShapedIndex.IndexRecord: the shapes share one class that branches on the shape.
- Collections.Collection.Insert: field names do not contain the name separators; dropping indexes or collections, schema changes and restoring an index from cached entries are not steps of a run.
- Collections.Collection.Commit: the collection is one, and the conflict check by stamp is left to `Transactions`.
- Collections.Collection.CheckUnique: constrained fields are visited in some order.
- ResultCaches.Transparent: query keys are distinct for distinct queries, a query reads one collection, and the hit and miss counters are not modelled. The plan cache holds no answers and is left out.
- Inference.Infer: field names are met in some order, not sorted; the lists of universal, optional and rejected fields are not returned.
- Inference.Validate: models the field types inference can settle on, all of fixed width; the same holds for Inference.ValidateRecord.
- Numerics.ArithIsRational: arithmetic by float, once exact arithmetic falls back, is not modelled.
- Allocation.ShardedIds.InsertAuto: ids are unbounded.
- Journal.WriteJournal: the file system calls around the bytes are not modelled. Decoders keep the bytes still to read where the code keeps a position in them.
- Blobs.WriteIndex: the order in which an index lists its keys is the caller's.
- Expressions.Reader.Get: evaluation of expressions is not modelled; conditions are functions from records to truth.
- The planner, compiled paths, direct arrays, joins, shadow execution, experiments, cost scoring, telemetry, the server, the command line and the foreign-function interface: heuristics, or plumbing that would add only easy members.
