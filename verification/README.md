# pg_stat_monitor statistics table and bucket export, in Dafny

This project models the core of pg_stat_monitor, a PostgreSQL extension
that collects per-query statistics into time buckets:

- **The statistics table** (`hash_query.c`). Entries are keyed by bucket,
  query and plan. Query texts live out of line in a shared byte buffer:
  an 8-byte header word with the used length, then records
  `(queryid, usage, length, text)` back to back.
  - `entry_dealloc` evicts the least used query texts.
    - It walks the records and sorts them by usage.
    - It records the median usage and compacts the buffer to the survivors.
    - It drops the table entries whose text is gone and re-points the rest.
  - `hash_entry_alloc` is find-or-create. It evicts at most once: the
    overflow flag it sets is never cleared in the modelled code.
  - `hash_entry_dealloc` rotates the table to a new bucket. It removes the
    finished entries of the incoming bucket and carries the still-running
    ("sticky") entries of the previous bucket over.
  - `hash_entry_reset` empties the table.
- **The export of a bucket to a table** (`pgsm_table_export.c`):
  - quoting and truncating text for SQL;
  - rendering the response-time histogram as an `ARRAY[...]` literal;
  - collecting a bucket's entries and sorting them by total time;
  - the cut to the top 300;
  - the command-type columns;
  - the choice of which bucket `pg_stat_monitor_export` exports.
- **The shared data model** (`pg_stat_monitor.h`): the key, the counters,
  the capacity and histogram constants and the `track` option table.
- **The internal error log** (`pgsm_errors.h`): one entry per distinct
  message, with a report count.

Layout:

- `bytes.dfy`: little-endian words and C's `int` to `uint64` conversion.
- `wrappers.dfy`: `Option`.
- `pg_stat_monitor.dfy`: the data model.
- `pgsm_errors.dfy`: the error log. It is a class with a map field.
- `query_buffer.dfy`: the buffer layout, the record walk, the usage order and the eviction plan. It holds these as values.
- `rotation.dfy`: what a bucket rotation does to the table. It holds this as values.
- `hash_query.dfy`: the imperative half of `hash_query.c`:
  - the loops, proved against the functions of the two modules above;
  - a `QueryText` class, whose array is compacted in place;
  - a `SharedState` class, whose fields the operations update.
- `table_export.dfy`: the export helpers. Escaping, array rendering and collection are methods with loops, proved against functions. Each function has a reading-back partner: an unescaper, an array-literal parser and a keyword reader.

Where a comment and the code disagree, the model follows the code:

- The header comment of `hash_entry_dealloc` (hash_query.c:370) says the query buffer of the new bucket is cleared. The body never touches its `query_buffer` argument, so the model leaves the buffer alone.
- The description of the design says that a bucket rotation clears the memory-overflow flag. No modelled code does: `hash_query.c` sets `mem_overflow` only at startup (line 63, false) and on the first overflow (line 342, true). The model follows the code. So, as far as these files show, once one eviction has happened a full table makes HashQuery.SharedState.HashEntryAlloc return no entry until restart, and an overflow episode never ends.
- The `pgsm_log_info` macro (pgsm_errors.h:61) passes `PGSM_LOG_INFO`, but the enumerator is spelled `PSGM_LOG_INFO` (pgsm_errors.h:31). As written the macro would not compile where it is used. The model gives it the evidently intended INFO severity.

## Model

| member | source | states |
|---|---|---|
| Bytes.ToU64 | hash_query.c:396-398 | an `int` bucket id compared with the `uint64` key field is reduced modulo 2^64, so `-1` becomes the all-ones word |
| Bytes.DecodeEncodeU64 | hash_query.c:219 | an 8-byte word read back from the buffer is the value written there |
| PgStatMonitor.UsageExecIgnoresDuration | pg_stat_monitor.h:60-62 | the per-execution usage increment is 1.0 whatever the duration, equal to the initial usage |
| PgStatMonitor.MaxQueryBuf | pg_stat_monitor.h:79 | the query buffer size is a whole number of MiB, and that number is `pgsm_query_shared_buffer` |
| PgStatMonitor.MaxBucketEntries | pg_stat_monitor.h:80-81 | the entry capacity is the largest count of entries of the given size that fits in `pgsm_max` MiB |
| PgStatMonitor.KeyIdentity | pg_stat_monitor.h:150-161 | two keys are the same entry iff all nine fields agree |
| PgStatMonitor.ZeroCounters | hash_query.c:355 | zeroed counters have zero calls, rows and usage for execution and planning, every execution and planning time (total, min, max, mean, sum of variances) zero, state `Parse` (0), command type unknown (0) and a histogram of `MAX_RESPONSE_BUCKET + 2` = 52 zero slots |
| PgStatMonitor.LookupOption | pg_stat_monitor.h:422-428 | the lookup gives a value iff some row before the terminating row carries the name, and then it is the value of the first such row |
| PgStatMonitor.TrackOptionsTable | pg_stat_monitor.h:416-428 | `none`, `top`, `all` map to 0, 1, 2; any other name maps to nothing; the last row, and only it, is the NULL sentinel |
| PgsmErrors.Truncate | pgsm_errors.h:26-37 | the stored message is a prefix of the reported one that fits the 128-byte buffer with its NUL; short messages are kept whole |
| PgsmErrors.Logged | pgsm_errors.h:55-59 | after a report, the message's entry exists and carries the report time; the keys grow by that message only; every other entry is unchanged |
| PgsmErrors.ErrorLog.constructor | pgsm_errors.h:43-47 | the log starts empty |
| PgsmErrors.ErrorLog.Log | pgsm_errors.h:55-59 | a known message gets its calls bumped and its time refreshed; a new one gets an entry with one call and the given severity; the log stays well formed |
| PgsmErrors.ErrorLog.LogInfoMsg | pgsm_errors.h:61 | reports with severity INFO |
| PgsmErrors.ErrorLog.LogWarningMsg | pgsm_errors.h:62 | reports with severity WARNING |
| PgsmErrors.ErrorLog.LogErrorMsg | pgsm_errors.h:63 | reports with severity ERROR |
| PgsmErrors.LoggedWellFormed | pgsm_errors.h:36-41 | each entry stays stored under its own message, shorter than 128 characters, with at least one call; this gives at most one entry per message |
| PgsmErrors.RepeatBumpsCalls | pgsm_errors.h:55-58 | a repeated message adds no entry, bumps calls by one and keeps its severity |
| PgsmErrors.NewMessageAddsOne | pgsm_errors.h:55-58 | a new message adds exactly one entry with one call |
| PgsmErrors.CallsCountReports | pgsm_errors.h:38-40 | after k reports of a new message, its entry has calls = k, the first severity and the last time; other entries are unchanged |
| PgsmErrors.LogTimesAddsCalls | pgsm_errors.h:40 | n more reports of a known message add n to its calls and keep the key set |
| PgsmErrors.LogTimesWellFormed | pgsm_errors.h:36-41 | any number of reports keeps the log well formed |
| QueryBuffer.UsedLengthInHeader | hash_query.c:219 | the header word of a serialized buffer is its used length |
| QueryBuffer.ReadRecordBytes | hash_query.c:225-230 | the id, usage and length words and the text read at a record's position are that record |
| QueryBuffer.WalkStep | hash_query.c:223-231 | while the cursor is below the used length, there is a record at the cursor and the cursor advances by 24 + its length |
| QueryBuffer.WalkSerialized | hash_query.c:222-231 | the walk from record i yields records i up to the cap on the count |
| QueryBuffer.ParseSerialize | hash_query.c:219-231 | walking a serialized buffer from offset 8 yields its first `min(num_entries, n)` records |
| QueryBuffer.CmpUsage | hash_query.c:148-171 | the comparator is negative, positive or zero exactly when the left usage is below, above or equal to the right one |
| QueryBuffer.CmpUsageAntisymmetric | hash_query.c:165-170 | swapping the arguments negates the comparator |
| QueryBuffer.SortedIffNoInversion | hash_query.c:233-234 | sorted by usage means no pair is out of order under the comparator |
| QueryBuffer.SortByUsage | hash_query.c:233-234 | the result is sorted by increasing usage and is a permutation of the input |
| QueryBuffer.SortKeepsSize | hash_query.c:233-234 | sorting keeps the number of records and their total byte size |
| QueryBuffer.VictimCount | hash_query.c:244-246 | `nvictims` is at most n and at least min(10, n) and min(percentage, n); it is one of these two minima, so it is the larger of them |
| QueryBuffer.PlanEviction | hash_query.c:219-275 | the walked records are a prefix of the buffer's; the sorted ones are a sorted permutation of them; the kept ones are those from `nvictims` on; each kept id maps to its first kept position |
| QueryBuffer.VictimsHaveLowestUsage | hash_query.c:257-261 | no victim has a larger usage than a kept record |
| QueryBuffer.KeptFits | hash_query.c:292-296 | the compacted buffer is no longer than the original |
| HashQuery.CompactedFitsScratch | hash_query.c:248 | the kept records fit in the `MAX_QUERY_BUF`-byte scratch buffer whenever the shared buffer of that size held the records |
| QueryBuffer.SortedUsagesAgree | hash_query.c:233-234 | two usage orders of the same records have the same usage at every position |
| QueryBuffer.TieOrderIrrelevant | hash_query.c:233-246 | any usage order of the walked records, not only the model's, gives the same median and the same usages at the victim and kept positions |
| QueryBuffer.MedianWithinRange | hash_query.c:236-242 | the usage at sorted index n/2 lies between the least and the largest usage walked |
| QueryBuffer.PlanMedian | hash_query.c:236-242 | there is a median iff some record was walked, and it lies within the walked usages |
| QueryBuffer.FirstOffsetsMeaning | hash_query.c:272-275 | an id is kept iff some kept record has it, and its position is that of the first such record |
| QueryBuffer.FirstOffsetsPointAtRecords | hash_query.c:272-296 | a kept position points at a readable record of that very query |
| QueryBuffer.EvictSurvivors | hash_query.c:298-314 | an entry survives iff its query id was kept, and then only its query position changes, to the kept one |
| HashQuery.WalkRecords | hash_query.c:219-231 | the cursor loop returns the first `min(num_entries, n)` records of the buffer, the same ones the parse gives |
| HashQuery.CompactRecords | hash_query.c:263-290 | the copy loop produces the layout of the kept records and each kept id's first position |
| HashQuery.EvictTable | hash_query.c:298-314 | the table scan gives the evicted table |
| HashQuery.CompactQueryBuffer | hash_query.c:219-293 | the new buffer contents are the serialization of the kept records; the median and positions are those of the plan |
| HashQuery.Memcpy | hash_query.c:296 | the prefix of the buffer becomes the new contents and the rest is unchanged |
| HashQuery.KeptPositionsPointAtRecords | hash_query.c:273-296 | every kept position points at a record of its own query in the compacted buffer |
| HashQuery.EvictedPointAtRecords | hash_query.c:299-314 | every surviving entry's query position points at a record of its query |
| HashQuery.QueryText.constructor | hash_query.c:219-220 | a fresh buffer of the requested size holds no records, as the walk reads its header word |
| HashQuery.QueryText.Compact | hash_query.c:219-296 | the array is compacted in place to hold exactly the kept records, in sorted order; returns the plan's median and positions, each pointing at a record of its query |
| HashQuery.Enter | hash_query.c:347-361 | `HASH_ENTER_NULL`: a present key returns its entry untouched; a new key gets zeroed counters and the encoding; an allocation failure returns nothing and changes nothing |
| HashQuery.Bump | hash_query.c:352 | one bucket's count rises by one; the others stay |
| HashQuery.SharedState.constructor | hash_query.c:60-75 | the median usage starts at the assumed initial value; both overflow flags are clear; no bucket cycles; empty table; an empty query buffer of `MAX_QUERY_BUF` bytes; a table bound of `MAX_BUCKET_ENTRIES` |
| HashQuery.SharedState.EntryDealloc | hash_query.c:179-318 | the buffer holds the kept records; the table is the evicted one and every survivor points at a record of its query; the median is updated only when some record was walked; nothing else changes |
| HashQuery.SharedState.MakeSpace | hash_query.c:329-345 | a full table with `mem_overflow` set reports no room and changes nothing; a full table without it sets the flag, evicts once and records the median of that eviction; otherwise nothing happens; `qb_overflow`, the bucket cycles, the query ids and the current bucket never change |
| HashQuery.SharedState.EnterKey | hash_query.c:347-361 | find-or-create on the key; a created entry bumps the current bucket's count by exactly one; every other field is unchanged |
| HashQuery.SharedState.HashEntryAlloc | hash_query.c:320-364 | on a second overflow, returns NULL and changes nothing; otherwise evicts at most once, recording that eviction's median, then finds or creates the entry; existing entries keep their counters; a new one is zeroed and counted in the current bucket; `qb_overflow`, the bucket cycles, the query ids and the current bucket never change |
| HashQuery.ScanStep | hash_query.c:396-435 | visiting one key changes the scanned table, the backups, the losses and the query ids only at that key |
| HashQuery.ScanTable | hash_query.c:388-436 | the scan loop gives the scanned table, the pending backups, the reset query ids and the number of failed backup allocations |
| HashQuery.ReinsertStep | hash_query.c:447-457 | re-inserting one backup changes the table only at its new key, and only when that key is free and the allocation succeeds |
| HashQuery.ReinsertTaken | hash_query.c:447-450 | the new key of a pending backup is taken during the second pass iff it was taken after the scan |
| HashQuery.EnterLostStep | hash_query.c:447-449 | a backup is lost at the second pass only when its key is free and the allocation fails |
| HashQuery.ReinsertOne | hash_query.c:442-460 | one turn of the re-insertion loop keeps the loop's invariant for the remaining backups |
| HashQuery.Reinsert | hash_query.c:438-460 | the re-insertion loop gives the restored table and the number of failed re-insertions |
| HashQuery.RotateTable | hash_query.c:378-463 | the table, the query ids and the failure count after the rotation are those of the Rotation module |
| HashQuery.SharedState.HashEntryDealloc | hash_query.c:378-463 | the table is rotated; a reset drops the query ids; every failed allocation is logged once as an error; the query buffer, median, both overflow flags, bucket cycles and current bucket are unchanged |
| HashQuery.SharedState.LogOutOfMemory | hash_query.c:420 | n out-of-memory reports leave the log as n calls of the logging contract |
| HashQuery.SharedState.HashEntryReset | hash_query.c:468-484 | the table is empty and the current bucket is 0; the query buffer, the query ids, the median, both overflow flags, the bucket cycles and the error log are untouched |
| Rotation.Rekey | hash_query.c:428-429 | the backup key is the old key with only the bucket id replaced |
| Rotation.Scanned | hash_query.c:396-435 | the scanned table is a subset of the original |
| Rotation.Backups | hash_query.c:415-432 | every backup comes from the table and from the previous bucket |
| Rotation.RekeyInjective | hash_query.c:415-429 | distinct backups land on distinct new keys, so the order of the pending list does not matter |
| Rotation.RestoredAt | hash_query.c:442-457 | after re-insertion, a key holds its scanned entry if it had one, else the backup re-inserted under it, else nothing |
| Rotation.RotatedAt | hash_query.c:378-463 | the same, key by key, for the whole rotation |
| Rotation.FinishedEntriesRemoved | hash_query.c:396-406 | a finished entry of the incoming bucket is gone, unless a sticky entry of the previous bucket was carried onto its key |
| Rotation.StickyEntriesCarriedOver | hash_query.c:415-457 | a sticky entry of the previous bucket reappears under the new bucket id with its counters, encoding and position, unless the key is taken (the existing entry wins) or its allocation fails (it is lost) |
| Rotation.OtherBucketsUntouched | hash_query.c:388-436 | entries of any other bucket keep their presence and contents |
| Rotation.NegativeBucketEmptiesTable | hash_query.c:393-406 | a negative new id empties the table when no entry of the previous bucket is sticky |
| Rotation.ResetForgetsQueryIds | hash_query.c:400-403 | a reset removes from the query-id table exactly the ids of the table's entries |
| Rotation.LostBackupsAreLogged | hash_query.c:417-449 | a sticky entry that does not reappear caused at least one out-of-memory report |
| TableExport.Escape | pgsm_table_export.c:67-79 | the escaped text is longer than the source by its number of quotes |
| TableExport.EscapeConcat | pgsm_table_export.c:68-79 | escaping works character by character, so it distributes over concatenation |
| TableExport.UnescapeEscape | pgsm_table_export.c:67-79 | undoubling the quotes gives back the source text |
| TableExport.SourceLength | pgsm_table_export.c:60-64 | the source length is the text's length when it fits in `max_len`, otherwise `max_len` |
| TableExport.TruncateAndEscapeString | pgsm_table_export.c:48-91 | the index loop writes, inside its `2 * src_len + 10` buffer, the text of the specification function: NULL or empty gives the empty string; otherwise the kept prefix with doubled quotes, then `...` iff text was cut |
| TableExport.CopyEscaped | pgsm_table_export.c:67-79 | the copy loop writes at most `2 * src_len` characters, the escaped prefix |
| TableExport.TruncatedEscapedLength | pgsm_table_export.c:63-89 | the output length is the kept length, plus the quotes in the kept prefix, plus 3 if cut; this is at most `2 * src_len + 3` |
| TableExport.TruncatedEscapedReadsBack | pgsm_table_export.c:57-89 | unescaping the output gives the kept prefix, followed by `...` iff the text was longer than `max_len` |
| TableExport.EscapedColumn | pgsm_table_export.c:15-24 | the column is `NULL` iff the text is NULL or empty |
| TableExport.NatTextDigits | pgsm_table_export.c:110 | `%d` of a non-negative value is a non-empty run of digits |
| TableExport.IntTextShape | pgsm_table_export.c:110 | `%d` output is non-empty, holds no comma and starts with a minus sign or a digit |
| TableExport.ParseIntText | pgsm_table_export.c:110 | `%d` output reads back as the value |
| TableExport.RespCallsToArray | pgsm_table_export.c:96-120 | the loop builds `ARRAY[`, the first `count` values joined by commas, then `]`; a count of 0 or less gives `ARRAY[]` |
| TableExport.ParseJoinInts | pgsm_table_export.c:106-111 | the comma-joined values read back as the values |
| TableExport.ArrayLiteralReadsBack | pgsm_table_export.c:105-112 | the array literal reads back as exactly the values it was built from |
| TableExport.JoinIntsCommas | pgsm_table_export.c:106-111 | n values are joined with n - 1 commas, and none for an empty list |
| TableExport.HistogramColumnDropsOutliers | pgsm_table_export.c:290 | the exported histogram has `MAX_RESPONSE_BUCKET` = 50 values, the first 50 slots; only the two outlier slots are left out |
| TableExport.CompareByTime | pgsm_table_export.c:125-137 | the comparator is negative, positive or zero exactly when the left total time is larger, smaller or equal |
| TableExport.CompareByTimeAntisymmetric | pgsm_table_export.c:131-136 | swapping the arguments negates the comparator |
| TableExport.SortedByTimeIffComparator | pgsm_table_export.c:178-179 | sorted by non-increasing time means no pair is out of order under the comparator |
| TableExport.SortByTime | pgsm_table_export.c:178-179 | the result is sorted by non-increasing total time and is a permutation of the input |
| TableExport.CollectStep | pgsm_table_export.c:158-173 | visiting a key adds its pair exactly when its bucket id is the requested one |
| TableExport.CollectEntries | pgsm_table_export.c:143-174 | the collection loop lists each entry of the bucket exactly once and nothing else |
| TableExport.Push | pgsm_table_export.c:163-172 | a full array doubles before the append; the listed prefix gains exactly the new pair |
| TableExport.SortEntries | pgsm_table_export.c:178-179 | the first `count` cells are replaced by their sorted permutation |
| TableExport.CollectAndSortEntries | pgsm_table_export.c:143-182 | the first `entry_count` cells list exactly the bucket's entries, once each, by non-increasing total time |
| TableExport.TopEntriesHaveLargestTimes | pgsm_table_export.c:650-651 | no entry past the cut has a larger time than one before it |
| TableExport.TopOfSorted | pgsm_table_export.c:646-658 | the first `min(n, 300)` of the sorted listing are the bucket's top rows |
| TableExport.ExportBucket | pgsm_table_export.c:629-679 | exports at most 300 distinct entries of the bucket, sorted by time; all of them when there are fewer, and none left out outranks an exported one; an empty bucket succeeds without SQL, otherwise the outcome is the statement's |
| TableExport.CmdTypeValue | pgsm_table_export.c:393-395 | the command type's number is that of PostgreSQL 15 and later, between 0 and 7 |
| TableExport.CmdTypeColumn | pgsm_table_export.c:393-397 | the `cmd_type` column is `NULL` iff the type is `CMD_NOTHING` |
| TableExport.CmdTypeColumnReadsBack | pgsm_table_export.c:393-395 | any other type's column reads back as its number |
| TableExport.CmdTypeText | pgsm_table_export.c:400-421 | a keyword is shown iff the type is SELECT, UPDATE, INSERT, DELETE or UTILITY |
| TableExport.CmdTypeTextColumn | pgsm_table_export.c:400-421 | the `cmd_type_text` column is `NULL` iff the type has no keyword |
| TableExport.CmdTypeTextReadsBack | pgsm_table_export.c:400-416 | each keyword names the type it was shown for |
| TableExport.CmdTypeTextInjective | pgsm_table_export.c:400-416 | no two command types share a keyword |
| TableExport.Export | pgsm_table_export.c:702-722 | the target is the pending bucket unless the all-ones sentinel is stored, then the current one; one bucket is reported iff the export succeeds; the pending mark is cleared iff none was pending or the export succeeded, and is otherwise unchanged |
| TableExport.PendingExportRetried | pgsm_table_export.c:710-719 | a pending bucket whose export fails stays the pending mark, and the next call targets it again whatever that call's current bucket and SQL outcome; after a success the mark is cleared and the next call exports that call's current bucket |

## Left out

- TableExport.CmdTypeValue numbers command types as PostgreSQL 15 and later do, where `CMD_MERGE` is 5, `CMD_UTILITY` 6 and `CMD_NOTHING` 7. The header still builds for PostgreSQL 13 and 14 (pg_stat_monitor.h:353), which have no `CMD_MERGE`; there `CMD_UTILITY` is 5 and `CMD_NOTHING` 6, so the `cmd_type` column of a utility statement would read 5. That numbering is not modelled.
- Locks, spinlocks and atomics. Every operation is modelled sequentially, with the exclusive lock held. `pg_atomic_compare_exchange_u64` on the pending export mark is a plain assignment.
- Shared-memory set-up, apart from the initial field values `pgss_startup` sets: `ShmemInitStruct`, `ShmemInitHash`, lock tranches, the shutdown hook, size estimates and getters.
- The usage decay at the start of `entry_dealloc`, by `STICKY_DECREASE_FACTOR` or `USAGE_DECREASE_FACTOR`. It is floating-point scaling of the usage words. The model evicts on the usages the buffer holds.
- Floating point. Usage is the 64-bit pattern of a non-negative double, and patterns are compared as unsigned words; that is the numeric order for such values. NaN and negative usages are not modelled. Total time is a `real`.
- `IS_STICKY`, `USAGE_DEALLOC_PERCENT` and `ASSUMED_MEDIAN_INIT` are not defined in the modelled files. They are parameters of `SharedState`: a predicate on counters and numbers. `MAX_BUCKET_ENTRIES` is computed from `pgsm_max` and the entry size; `sizeof(pgsmEntry)` depends on the C layout, so the size is a parameter.
- The pending list of `hash_entry_dealloc` is a map from the old key to the backup, not a list. Rotation.RekeyInjective shows that the list order cannot change the result.
- `malloc` and `HASH_ENTER_NULL` failures are parameters: the set of keys whose allocation fails.
- HashQuery.SharedState.HashEntryDealloc logs all out-of-memory reports after the table work, at one time `now`, rather than interleaved with the scan. The log's final contents are the same, since every report uses the same message and time.
- HashQuery.SharedState.EnterKey: a new entry's query position is set to 0. The source leaves it for the caller to fill in.
- HashQuery.SharedState.EnterKey and HashQuery.SharedState.HashEntryAlloc require the current bucket index to be within `bucket_entry[]`. The source relies on this without checking it.
- HashQuery.WalkRecords, HashQuery.CompactQueryBuffer and HashQuery.QueryText.Compact require the buffer to hold a well-formed sequence of records. The source reads whatever length words it finds; a corrupted buffer is not modelled.
- `pgss_query_hash` holds only query ids; its values are not modelled.
- `set_qbuf` and the rest of the query-text storage path are not part of this model.
- HashQuery.QueryText.constructor writes 8, the header's own size, as the used length of an empty buffer. That value is a choice of the model, since the code that fills a fresh buffer is not part of this model. A header word of 0 would walk the same way, giving no records.
- The implementation file `pgsm_errors.c` is not part of this model. The error log follows the contract in `pgsm_errors.h`.
- PgsmErrors.ErrorLog.Log takes the formatted message. Printf-style formatting and the size of the hash table are not modelled: the log never runs out of room. The time is a string parameter.
- TableExport.TruncateAndEscapeString takes `max_len` as a natural number. The source's `int` is never negative at its call sites.
- A C string is `Option<string>`, with `None` for a NULL pointer. Strings are sequences of characters, with no encoding.
- TableExport.TruncateAndEscapeString counts every character of its input as text. A C string ends at its first NUL, so a model string holding a NUL has no C counterpart; such strings are not excluded.
- QueryBuffer.PlanEviction, HashQuery.CompactQueryBuffer, HashQuery.QueryText.Compact and HashQuery.SharedState.EntryDealloc sort with a fixed insertion sort, so records of equal usage come out in one particular order. `qsort` may order them differently, which can change which of them are evicted. QueryBuffer.TieOrderIrrelevant shows that the median, and the usage at every victim and kept position, do not depend on that order.
- TableExport.RespCallsToArray uses unbounded integers for the C `int` values and requires `count` to be within the array. The source would read past the end otherwise.
- Integer widths: counts, `array_size` and `entry_count` are unbounded, so their overflow is not modelled.
- `build_insert_statement` and the SQL it builds, except the columns modelled above. Its other columns are float formatting (`%f`, `sqrt`, `to_timestamp`) or free text.
- `execute_export_sql`, SPI, superuser checks and error catching are database I/O. Their outcome is a boolean parameter.
- DSA pointers and the query-text lookup in the export are not modelled.
- `elog` messages are not modelled.
- The `track` option lookup compares names exactly. PostgreSQL's case-insensitive matching of enum options is outside the modelled files.
- `JumbleState` and the other declarations of `pg_stat_monitor.h` that the modelled code does not use are not modelled.
