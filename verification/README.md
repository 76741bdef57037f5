# Transactional ordered index (silo `txn_btree`) in Dafny

This project models the transactional layer that silo puts in front of its
concurrent B-tree (`txn_btree_impl.h`): the point read, the range-scan adapter
and driver, the write path, and teardown. The layer decides, during a
transaction, whether an index access must abort the transaction. Its inputs
are the transaction's own state (write set, read set, absent set, absent
ranges, node versions) and what the shared index and its versioned records
show.

The collaborators are abstract:

- The index is a `map<Key, Handle>`. A record (`dbtuple`) is an arena handle.
- `dbtuple::stable_read` is an oracle `(record, read tid, read-only hint) -> (stable, tid, value)`.
- The transaction is a value that holds its flags, its optional snapshot tid, its
  `can_read_tid` rule, and the per-index context.
- An abort is the `Aborted(reason)` arm of a `Result`.
- A range traversal is the sequence of node and key callbacks the B-tree would
  make. The scan is a fold over that sequence.
- The purge tree walk is a sequence of begin/success/failure events. The walker
  is a small state machine over those events.
- The caller's scan callback is a function of the pairs already handed to it
  and the next pair.

Modules: `Keys` (byte-string keys, `next_key`, key ranges), `Transaction`
(context, abort reasons, and the read step shared by search and scan),
`PointRead`, `RangeScan`, `Tiling` and `ScanProperties` (the scan and what it
guarantees), `TreePut`, and `Purge`.

Keys are byte strings in `std::string` order: lexicographic, bytes unsigned.
`util::next_key` is defined outside `txn_btree_impl.h`. It is modelled as
appending one zero byte. `Keys.NextKeyImmediate` proves that this gives the
immediate successor, so no key lies strictly between a key and its successor.
`local_search_str` is also defined outside `txn_btree_impl.h`. It is modelled
with the priority the comment at `txn_btree_impl.h:28-34` gives: the write set
first, then the absent set, then the absent ranges. A key known to be absent
resolves to the empty value.

Behaviour of the code that its own comments, or a quick reading, could
suggest otherwise:

- The comment at `txn_btree_impl.h:233-242` says that a scan emits the
  previous version of a record the transaction has already read. The code
  (lines 160-205) neither reads nor delivers such a record, so a key whose
  record is already in the read set, and which the transaction did not write,
  is not handed to the caller at all. `ScanProperties.ReadRecordNotRedelivered`
  states this behaviour.
- A plain write replaces the whole write-set entry, including the record
  pointer left by an earlier expect-new write of the same key (lines 289 and
  318). `TreePut.PlainPutDropsInsertedRecord` states this behaviour.
- The `READ_NODE_INTEREFERENCE` check in the scan adapter (lines 190-198)
  cannot fire: the adapter only reads records missing from the read set
  (line 160), so the entry it checks was just created with a zero tid.
  `ScanProperties.ScanAbortReasons` proves this.

## Model

| member | source | states |
|---|---|---|
| Keys.NextKeyImmediate | txn_btree_impl.h:136 | The key after `prev_key` sorts above it, and any key above `prev_key` is at or above it. So no key lies between a visited key and the start of the next gap. |
| Keys.EmptyRangeHasNoKeys | txn_btree_impl.h:139-140 | A range is an "empty range", and so is not recorded, exactly when no key lies in it. |
| Transaction.RecordRead | txn_btree_impl.h:85-94 | A missing or zero read-set entry takes the observed tid. A different non-zero tid aborts with `READ_NODE_INTEREFERENCE`. An equal tid leaves the read set unchanged. On success the record maps to the observed tid and no other entry changes. |
| Transaction.ReadRecord | txn_btree_impl.h:55-94 | The record is read at the read tid. An unstable read aborts with `UNSTABLE_READ`, then an invisible tid aborts with `FUTURE_TID_READ`, and both happen before the read set is touched. Then comes the read-set check. The read succeeds exactly when none of the three applies. |
| PointRead.Truncate | txn_btree_impl.h:38-39 | The result is a prefix of the value, of length min(value length, limit). |
| PointRead.TruncateKeepsEmptiness | txn_btree_impl.h:40 | With a positive limit, the truncated value is empty exactly when the value is. |
| PointRead.Search | txn_btree_impl.h:19-97 | Needs a positive `max_bytes_read`. A locally resolved key returns exactly the first min(length, `max_bytes_read`) bytes of the local value, found exactly when it is non-empty, and leaves the context unchanged. A key missing from the index was not yet in the absent set, is added as `ABSENT_REC_READ`, and the result is not found. Otherwise the three read aborts happen under exactly their conditions, and success records the observed tid for the record and returns exactly the first min(length, `max_bytes_read`) bytes of the read value, found exactly when the value is non-empty. |
| PointRead.SearchIdempotent | txn_btree_impl.h:36-96 | Searching the same key again with the same index and record reports the same `(found, value)` and leaves the context as the first search left it. |
| Tiling.GapsCoverBelowLast | txn_btree_impl.h:134-142 | For increasing keys from `lower`, the recorded gaps cover exactly the unvisited keys from `lower` up to the last visited key. They are non-empty and pairwise disjoint. |
| Tiling.ScanRangesTile | txn_btree_impl.h:243-261 | The gaps plus the trailing range cover exactly the keys of `[lower, upper)`, or of `[lower, +inf)`, that were not visited, with no key in two ranges. |
| RangeScan.OnRespNode | txn_btree_impl.h:102-121 | Outside low-level mode nothing changes. In low-level mode, a node seen before with a different version aborts with `NODE_SCAN_READ_VERSION_CHANGED`. Otherwise the node is pinned at this version. |
| RangeScan.GapLeavesKeyAlone | txn_btree_impl.h:134-153 | Recording the gap before `k` never changes how `k` resolves locally. |
| RangeScan.LocalVisit | txn_btree_impl.h:134-158 | The first half of a key visit: outside low-level mode it records the non-empty gap before the key and moves `prev_key` to it, without changing how the key resolves locally. The caller gets the transaction's own value exactly when it is non-empty, and the stop flag is set exactly when the caller answers `false`. The read set is untouched. |
| RangeScan.Invoke | txn_btree_impl.h:126-209 | Records the non-empty gap before the key, except in low-level mode. A record already in the read set is not read again. A new record aborts only on an unstable read or an invisible tid, and otherwise gets a fresh read-set entry. At most one non-empty pair is delivered. A key in the write set delivers its own value if it is non-empty, and nothing otherwise. An index value is delivered only for a key not resolved locally and a record not read before. The caller stopped exactly when it answered `false`. |
| RangeScan.SearchRangeCall | txn_btree_impl.h:243-261 | When `upper <= lower` the scan changes nothing and delivers nothing. Otherwise the traversal decides the abort and its reason, what is delivered and whether the caller stopped. A caller's `false`, or low-level mode, ends the scan with the traversal's context and no trailing range. Otherwise exactly one range is appended, ending at `upper`, and nothing else in the context changes. |
| ScanProperties.InvokeTracksGaps | txn_btree_impl.h:134-143 | One key visit outside low-level mode appends exactly the next gap of the visited-key list and sets `prev_key` to the key. |
| ScanProperties.TraverseRecordsGaps | txn_btree_impl.h:134-142 | A traversal the caller did not stop records exactly the gaps before the keys it visited. |
| ScanProperties.SearchRangeTiles | txn_btree_impl.h:243-261 | A completed non-low-level scan of `[lower, upper)` with increasing visited keys inside the interval keeps the earlier ranges. The ranges it adds cover exactly the unvisited keys of the interval, and no key lies in two of them. |
| ScanProperties.UnstoppedScanRanges | txn_btree_impl.h:250-261 | A completed non-low-level scan of a non-empty interval appends, after the earlier ranges, the gaps before the visited keys and then the trailing range. |
| ScanProperties.TraverseKeepsContext | txn_btree_impl.h:145-208 | A scan keeps the write set, the absent set, every tid already in the read set, and, outside low-level mode, the node versions. Every pair it delivers has a visited key and a non-empty value, and a key the transaction wrote carries the transaction's own value. |
| ScanProperties.LocalWritesDelivered | txn_btree_impl.h:153-158 | A scan the caller did not stop delivers every visited key that the transaction wrote with a non-empty value, with that value. |
| ScanProperties.LowLevelTraversePinsNodes | txn_btree_impl.h:108-120 | In low-level mode a traversal records no absent range and keeps pinned versions. Unless the caller stopped it, every visited node ends pinned at the version it was visited with. |
| ScanProperties.LowLevelScanPinsNodes | txn_btree_impl.h:252-261 | A low-level scan records no absent range, not even the trailing one. A completed low-level scan never saw one node at two versions. |
| ScanProperties.ScanLeavesNodeVersions | txn_btree_impl.h:108 | Outside low-level mode a scan leaves the node-version map unchanged. |
| ScanProperties.TraverseAbortReasons | txn_btree_impl.h:160-199 | A traversal aborts only with `UNSTABLE_READ` or `FUTURE_TID_READ`, or with `NODE_SCAN_READ_VERSION_CHANGED` in low-level mode. |
| ScanProperties.ScanAbortReasons | txn_btree_impl.h:176-199 | A scan never aborts with `READ_NODE_INTEREFERENCE`. |
| ScanProperties.TraverseNotRedelivered | txn_btree_impl.h:153-205 | If every visit of key `k` carries a record already in the read set, and the transaction did not write `k`, a traversal hands the caller no pair for `k`. |
| ScanProperties.ReadRecordNotRedelivered | txn_btree_impl.h:160-205 | A later scan, stopped or not, whose visits of `k` carry a record already in the read set and which the transaction did not write, delivers no pair for `k` and leaves that record's read-set tid as it was. |
| ScanProperties.TraverseRecordsGapsUntilStop | txn_btree_impl.h:134-142 | Any successful traversal outside low-level mode, stopped or not, records exactly the gaps before the keys of the events it consumed. |
| ScanProperties.StoppedScanRecordsGaps | txn_btree_impl.h:248-251 | A non-low-level scan the caller stopped keeps the earlier ranges and adds exactly the gaps before the keys it got to, with no trailing range. |
| TreePut.DoTreePut | txn_btree_impl.h:267-319 | Covers both overloads. A read-only transaction aborts with `USER` whatever else holds. An expect-new write whose insert reported a collision aborts with `WRITE_NODE_INTERFERENCE`. Otherwise the write succeeds: the entry for the key becomes `(v, record)`, where the record is the one the insert reported for an expect-new write and none for a plain write. Other keys and the rest of the context are unchanged. |
| TreePut.ExpectNewWithoutRecordIsPlainWrite | txn_btree_impl.h:280-289 | An expect-new write whose insert reports neither a collision nor a record, which the check at line 281 allows, stores a null record pointer and so ends exactly like a plain write. |
| TreePut.ReadOwnWrite | txn_btree_impl.h:278-289 | After a successful write, searching the key returns the written value, truncated, found exactly when it is non-empty, whatever the index, the insert's report or the record holds. |
| TreePut.PlainPutDropsInsertedRecord | txn_btree_impl.h:287-289 | A plain write after an expect-new write of the same key replaces the entry whole, so the inserted record is no longer referenced. |
| Purge.OnNodeBegin | txn_btree_impl.h:340-344 | Needs an empty staging list. Stages the node's records and releases nothing. |
| Purge.ReleaseAll | txn_btree_impl.h:350-367 | One release per record, in order, all in the given mode. |
| Purge.OnNodeSuccess | txn_btree_impl.h:348-378 | Releases every staged record once, in order. A release is deferred when background tasks exist and immediate otherwise. Then the staging list is empty. |
| Purge.OnNodeFailure | txn_btree_impl.h:382-385 | Empties the staging list without releasing anything. |
| Purge.Walk | txn_btree_impl.h:329 | Driven by the walk's events, the walker only adds releases, all in the configured mode. |
| Purge.WalkReleasesConsistentNodes | txn_btree_impl.h:340-385 | A walk over node visits follows the protocol and releases exactly the records of the consistently finished visits, in order. A failed visit releases nothing, and the staging list ends empty. |
| Purge.UnsafePurge | txn_btree_impl.h:323-336 | Allowed only on an index not yet destructed, and leaves it destructed, so a second purge breaks the precondition. Background tasks are stopped first, only releases follow, all in the configured mode, the tree is cleared last, and the index ends empty. |
| Purge.PurgeFreesConsistentRecords | txn_btree_impl.h:325-330 | Between stopping background tasks and clearing, teardown frees exactly the records of the consistently finished node visits, each once, in order. |

## Left out

- PointRead.Search: `stable_read` receives `max_bytes_read` (line 65). The model reads the whole value and then truncates it, which matches only if `stable_read` returns a prefix of at most that many bytes.
- Concurrency is not modelled: the B-tree's locking and node versioning, the internals of `dbtuple::stable_read` (modelled as an oracle), and RCU and epoch reclamation (a release is tagged deferred or immediate).
- The B-tree's traversal is not modelled. Its callbacks are an input sequence, and the model assumes it stops when the caller stops.
- `local_search_str`, `util::next_key`, `add_absent_range` and `key_range_t` are defined outside `txn_btree_impl.h`. They are modelled as described above. `add_absent_range` is modelled as appending to a list, without merging.
- `try_insert_new_tuple` is defined outside `txn_btree_impl.h`, and so is the index insertion it performs. Its report (a record or none, and a collision flag) is an input to `TreePut.DoTreePut`. The model does not say when an insert collides or how the index changes.
- `ensure_active` and the lazy per-index context lookup `t.ctx_map[this]` belong to the transaction. Each operation takes this index's context directly.
- `abort_impl`'s effect on the transaction object is not modelled. An abort is the returned `Aborted(reason)`, and the partly updated context is dropped.
- `prefetch`, the string-allocator buffers (`sa()`, `temp_buf0/1`), the diagnostic counters, the `PERF_DECL`/`ANON_REGION` probes, `VERBOSE` output, `TXN_BTREE_DUMP_PURGE_STATS` statistics (and with them `dump_stats`), and the `CHECK_INVARIANTS` lock guard have no functional effect.
- Tid wrap-around is not modelled. The code flags it as unsupported (line 87).
- PointRead.Search: when the index has no record, the code leaves the caller's output buffer untouched. The model reports an empty value there.
- The caller's scan callback is a pure function of the pairs already delivered and the next pair. Callbacks with other side effects are not modelled.
