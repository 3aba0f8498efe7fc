# Edge writes of the NebulaGraph storage service

This project models how the storage service of NebulaGraph turns an
add-edges request into key/value writes. It covers `AddEdgesProcessor` in
`src/storage/mutate/AddEdgesProcessor.cpp` and proves properties of that model.

A request names a graph space, carries an ignore-existed-index flag and
maps partition ids to lists of edges. Each edge has a source vertex, an edge
type, a ranking, a destination vertex and encoded properties. The processor
works in four steps:

- It computes one version for the whole request. This is the complement of
  the current time when multi-versioning is on, and 0 otherwise.
- It records the request's space, the flag and the number of partitions.
- It looks up the space's edge indexes.
- It submits one write per partition:
  - **Fast path** (the space has no edge index): one plain put per
    partition. It holds one key/value pair per edge, in request order, with
    duplicates kept.
  - **Indexed path**: one atomic operation per partition. Its batch is built
    by `addEdges`, which works as follows:
    - It deduplicates the partition's edges by edge key; the last
      occurrence wins.
    - It visits the keys in key order.
    - For every index of each edge's type it removes the entry computed from
      the stored record the edge replaces, then inserts the entry computed
      from the new row with an empty value.
    - Each edge's operations end with the primary put.
    - If a row that the indexes need does not decode, the whole partition's
      batch is given up.

Modules:

- `Options`: the `Option` type.
- `Keys`: identifiers; edge keys, identity prefixes and index keys as
  datatypes of their fields; the order in which a map keyed by edge keys is
  visited (`KeyLess`, `Least`, `Ordered`).
- `EdgeBatch`: the environment the builder reads (space, indexes, flag,
  store snapshot, schema layer) and the functional definition of the batch
  (`AddEdgesSpec`). The builder itself is the method `AddEdges`, with its
  per-edge and per-index loops (`AppendEdgeOps`, `AppendIndexOps`), proved to
  return `AddEdgesSpec`. The definitions the properties are stated about:
  - `FindObsoleteIndex` defines `findObsoleteIndex`
    (`src/storage/mutate/AddEdgesProcessor.cpp:160-173`): the newest stored
    value under the edge's identity prefix, or the empty value.
  - `IndexKeyFor` defines `indexKey` (lines 175-189), with `None` for the
    empty string returned when field collection fails.
  - `ObsoleteLookup` defines the lookup and decode of the replaced record
    (lines 99-113).
  - `IndexStep` defines one turn of the loop over the indexes (lines
    128-147), and `IndexOps` defines the whole loop (lines 127-148).
  - `EdgeOps` defines one edge's step of the visit (lines 91-154), with
    `None` for the early `return ""`.
  - `Dedup` defines the deduplicating map (lines 77-89), and `BatchOf` the
    visit of its keys in a given order (lines 90-155).
  - `AddEdgesSpec` defines `addEdges` (lines 60-158), visiting the keys in
    map order.
- `EdgeBatchProperties`: the properties of the batch, proved about
  `AddEdgesSpec` and the per-edge `EdgeOps`.
- `Processor`: the request version, the fast-path pairs, the choice between
  the two paths, and the class `AddEdgesProcessor`. Its `Process` method
  sets the processor's fields and records one submission per partition.
  - `RequestVersion` defines the version of lines 17-18.
  - `FastPathData` defines the pairs of one partition's plain put (lines
    31-42).
  - `CallFor` defines what `process` submits for one partition (lines
    30-56): `doPut` of the space and partition with the pairs, or
    `asyncAtomicOp` of the space and partition with the batch that
    `addEdges` builds.

## Model

| member | source | states |
|---|---|---|
| Keys.KeyLessIsStrictTotalOrder | src/storage/mutate/AddEdgesProcessor.cpp:77-90 | The order that the deduplicating map visits its keys in is irreflexive, asymmetric, transitive and total on edge keys. |
| Keys.VersionsOrderKeys | src/storage/mutate/AddEdgesProcessor.cpp:17-20 | Two keys of the same edge that differ only in non-negative versions are ordered by their versions. |
| Keys.Ordered | src/storage/mutate/AddEdgesProcessor.cpp:90 | The in-order visit of a key set lists every key of the set and nothing else, and is exactly as long as the set. |
| Keys.OrderedAscending | src/storage/mutate/AddEdgesProcessor.cpp:90 | The visit is strictly ascending in key order, so no key is visited twice. |
| EdgeBatch.Dedup | src/storage/mutate/AddEdgesProcessor.cpp:77-89 | Every key of the deduplicated map is in the partition being written and carries the request's version. |
| EdgeBatch.BatchAbortSticks | src/storage/mutate/AddEdgesProcessor.cpp:107-111 | Once the batch has been given up, visiting further edges never brings it back. |
| EdgeBatch.AddEdges | src/storage/mutate/AddEdgesProcessor.cpp:60-158 | The step-by-step builder (dedup loop, in-order visit with early exits, per-index loop) returns exactly the batch that `AddEdgesSpec` defines, including `None` when it gives up. |
| EdgeBatch.AppendEdgeOps | src/storage/mutate/AddEdgesProcessor.cpp:91-154 | One edge's step gives up exactly when the edge's operations are undefined. Otherwise it appends exactly those operations to the batch. |
| EdgeBatch.AppendIndexOps | src/storage/mutate/AddEdgesProcessor.cpp:127-148 | The loop over the indexes appends the index operations of the edge, index by index, and nothing when no index belongs to its type. |
| EdgeBatchProperties.IndexOpsShape | src/storage/mutate/AddEdgesProcessor.cpp:127-148 | Every index operation of an edge is on an entry of an index of the edge's type that names the edge's src, rank and dst. Every index put has the empty value. Without an old row, or when existing entries are ignored, there is no removal. |
| EdgeBatchProperties.IndexOpsRemovals | src/storage/mutate/AddEdgesProcessor.cpp:127-148 | The removals of the loop over the indexes are exactly the old-row entries under the indexes of the edge's type, and there are none when existing entries are ignored or there is no old row. |
| EdgeBatchProperties.IndexOpsInsertions | src/storage/mutate/AddEdgesProcessor.cpp:127-148 | The puts of the loop over the indexes are exactly the new-row entries under the indexes of the edge's type, each with the empty value. |
| EdgeBatchProperties.IndexOpsRemoveThenPut | src/storage/mutate/AddEdgesProcessor.cpp:129-146 | When an index of the edge's type yields both an old and a new entry, the removal of the old entry comes immediately before the put of the new one. |
| EdgeBatchProperties.EdgeOpsGivesUp | src/storage/mutate/AddEdgesProcessor.cpp:99-125 | An edge gives up iff its type has an index and either its new properties do not decode, or existing entries are not ignored and a non-empty stored value does not decode. Whether index fields can be collected does not affect this. |
| EdgeBatchProperties.EdgeOpsLayout | src/storage/mutate/AddEdgesProcessor.cpp:94-154 | When no index belongs to the edge's type, the edge's only operation is its primary put, whatever the store and schema. Otherwise its operations end with the primary put and everything before it is an index operation of the edge. When existing entries are ignored, nothing is removed. |
| EdgeBatchProperties.EdgeOpsExact | src/storage/mutate/AddEdgesProcessor.cpp:99-148 | An edge removes exactly the entries of its stored record when that record is found, non-empty and decodes (and existing entries are not ignored). It puts exactly the entries of its new row, with empty values, and it removes nothing else. |
| EdgeBatchProperties.EdgeOpsRemoveThenPut | src/storage/mutate/AddEdgesProcessor.cpp:127-154 | For an index of the edge's type with both entries defined, the edge's operations hold the removal of the old entry immediately followed by the put of the new one. |
| EdgeBatchProperties.ObsoleteLookupIgnoresVersion | src/storage/mutate/AddEdgesProcessor.cpp:160-173 | The obsolete-record lookup reads only the edge's identity: any two keys that agree on src, edge type, rank and dst find the same prefix, the same stored value and the same decoded outcome, whatever their versions. |
| EdgeBatchProperties.IndexKeyIgnoresTypeAndVersion | src/storage/mutate/AddEdgesProcessor.cpp:183-188 | An index entry does not depend on the edge key's type or version. |
| EdgeBatchProperties.IndexEntryIdentifiesEdge | src/storage/mutate/AddEdgesProcessor.cpp:175-189 | Two equal entries of one index come from the same partition, from edges with the same src, rank and dst, and from rows with the same collected values. So removing one edge's old entry never deletes the entry of an edge with a different src, rank or dst. |
| EdgeBatchProperties.IndexEntriesOfDistinctIndexesDiffer | src/storage/mutate/AddEdgesProcessor.cpp:183-188 | Entries of two indexes with different ids never coincide, whatever the rows and edges they are built from. |
| EdgeBatchProperties.DedupLastWins | src/storage/mutate/AddEdgesProcessor.cpp:77-89 | Every edge's key is in the deduplicated map, and every key in it comes from an edge of the request and holds the properties of the last edge with that key. |
| EdgeBatchProperties.DedupHasEveryKey | src/storage/mutate/AddEdgesProcessor.cpp:77-89 | No edge of the request is lost by deduplication: every edge's key is a key of the map. |
| EdgeBatchProperties.DedupKeepsLast | src/storage/mutate/AddEdgesProcessor.cpp:77-89 | The last edge with a given key is the one whose properties the map holds for that key. |
| EdgeBatchProperties.AddEdgesAbortIff | src/storage/mutate/AddEdgesProcessor.cpp:99-125 | The partition's batch is given up iff some edge that survives deduplication gives up. This holds no matter how many other edges were processed first. |
| EdgeBatchProperties.EdgeOpsMembers | src/storage/mutate/AddEdgesProcessor.cpp:99-154 | An edge's operations hold its own primary put and no other primary write. They remove exactly the entries of the record it replaces and put exactly the entries of its new row, with empty values. |
| EdgeBatchProperties.AddEdgesExact | src/storage/mutate/AddEdgesProcessor.cpp:90-155 | A built batch puts a primary record iff its key and value are in the deduplicated map. It removes exactly the obsolete entries of its edges, puts exactly their new entries with empty values, and removes no primary record. |
| EdgeBatchProperties.PrimaryWrites | src/storage/mutate/AddEdgesProcessor.cpp:152-154 | The primary writes of a batch are exactly its operations on primary records. |
| EdgeBatchProperties.EdgePrimaryWrites | src/storage/mutate/AddEdgesProcessor.cpp:152-154 | Each edge contributes exactly one primary write: its key with its properties. |
| EdgeBatchProperties.AddEdgesPrimaryWrites | src/storage/mutate/AddEdgesProcessor.cpp:77-154 | A built batch has exactly one primary put per distinct edge key. Each carries the deduplicated value, and every key of the map is written. |
| EdgeBatchProperties.AddEdgesPrimaryWritesAscending | src/storage/mutate/AddEdgesProcessor.cpp:90 | The primary writes come in strictly ascending key order, not in request order, and no key is written twice. |
| EdgeBatchProperties.LastWriteWins | src/storage/mutate/AddEdgesProcessor.cpp:77-154 | The last edge with a given key is written exactly once, with its own properties. |
| EdgeBatchProperties.AddEdgesGrouping | src/storage/mutate/AddEdgesProcessor.cpp:90-155 | A built batch ends with a primary put. Every index operation is followed, with only index operations in between, by the primary put of the edge it belongs to, so each edge's operations are contiguous and its primary put comes last. |
| EdgeBatchProperties.IgnoreExistedIndex | src/storage/mutate/AddEdgesProcessor.cpp:99-139 | With the ignore-existed-index flag set, the batch does not depend on the store, so no stored record is read, and it contains no removal. |
| Processor.RequestVersion | src/storage/mutate/AddEdgesProcessor.cpp:17-18 | The version is 0 without multi-versioning, and a non-negative 64-bit value with it for a clock reading between 0 and INT64_MAX. |
| Processor.LaterRequestSortsFirst | src/storage/mutate/AddEdgesProcessor.cpp:17-20 | With multi-versioning and clock readings between 0 and INT64_MAX, a later request gets a smaller non-negative version, so its key for the same edge sorts first. |
| Processor.FastPathData | src/storage/mutate/AddEdgesProcessor.cpp:31-42 | The fast path has one pair per edge, in request order and with duplicates kept. Each pair is the edge's key at the request version with its properties. |
| Processor.CollectFastPathData | src/storage/mutate/AddEdgesProcessor.cpp:33-42 | The loop that fills a partition's pairs produces exactly `FastPathData`. |
| Processor.Submission | src/storage/mutate/AddEdgesProcessor.cpp:30-56 | A partition gets a plain put of the fast-path pairs when there is no edge index, and otherwise an atomic operation with the partition's batch. Either way it is addressed to the request's space and the partition. |
| Processor.PartitionOrder | src/storage/mutate/AddEdgesProcessor.cpp:31-46 | The partitions are visited in some order that lists each partition of the request exactly once. |
| Processor.Submissions | src/storage/mutate/AddEdgesProcessor.cpp:31-56 | The loop over the partitions makes one submission per visited partition, in visit order. |
| Processor.SubmittedInOrder | src/storage/mutate/AddEdgesProcessor.cpp:22-56 | Submitting in the order of such a listing gives exactly one submission per partition, as many as there are partitions, each the one prescribed for it. |
| Processor.SubmitAll | src/storage/mutate/AddEdgesProcessor.cpp:30-56 | The visit of the request's partitions makes exactly one submission per partition, as many as there are partitions, each the one prescribed for its space and partition. |
| Processor.AddEdgesProcessor.Process | src/storage/mutate/AddEdgesProcessor.cpp:15-58 | Sets the space and the flag, sets the calling count to the number of partitions, and replaces the index list only on a successful lookup. It appends exactly one submission per partition, built from the fields as they now stand and addressed to the request's space, and keeps the earlier submissions. |

## Left out

- `asyncAtomicOp`, the completion callback and `handleAsync`: submissions
  are recorded, in order, in the processor's `calls`. Their execution,
  completion and concurrency are not modelled.
- `doPut` and `doGetFirstRecord`: the store is a snapshot map from a
  space and an edge identity to the newest stored value. A read that does
  not succeed, for whatever reason, is an absent identity.
- `RowReader::getEdgePropReader` and `collectIndexValues`: they are the
  `decode` and `collect` functions of the schema layer, with `None` for the
  null reader and for a failed collection. The empty reader is the absent
  old row.
- The byte layout of edge keys, prefixes and index keys: keys are
  datatypes of their fields. The byte order of the map keyed by encoded
  keys stands as `KeyLess`, a lexicographic order on the numeric fields.
- AddEdgesSpec: the order it gives between different edges is a
  stand-in for the byte order of the encoded keys. Only the strict total
  order facts (`Keys.KeyLessIsStrictTotalOrder`, and from it ascending
  visits without repeats) carry over to the real map. Fields written
  without a byte swap need not sort numerically as bytes.
- Keys.VersionsOrderKeys: stands for the big-endian encoding of the
  version, under which the keys of one edge sort by version as numbers. That
  holds only for non-negative versions, which is why the lemma asks for
  them and `Processor.LaterRequestSortsFirst` asks for clock readings
  between 0 and INT64_MAX.
- `folly::Endian::big`: the version is kept as an integer. The clock is
  a parameter of `Process`, and so is the multi-versioning flag.
- `encodeBatchValue`: the batch is the sequence of operations, and the
  empty string returned on giving up is `None`.
- The empty string returned by `indexKey` is `None`.
- Logging.
- `src/storage/mutate/AddEdgesProcessor.h` is not part of this model. The
  constructor's initial field values (no indexes, no calls, a zero count)
  are assumed.
- The iteration order of the request's partition map is unspecified, and
  the model keeps it so (`PartitionOrder`).
- Integer widths of identifiers are not modelled. Nothing does arithmetic
  on them except the version.
- Processor.RequestVersion: does not model the overflow of the int64
  subtraction for a clock reading below 0, where it overflows, because a
  microsecond clock is never negative.
- Processor.AddEdgesProcessor.Process: a failed index lookup keeps the
  previous index list. On a fresh processor that list is empty, so the fast
  path is taken; on a reused processor it would not be.
