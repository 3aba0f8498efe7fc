/**
 * What the batch of one partition contains, proved about `AddEdgesSpec`
 * (and so, through `EdgeBatch.AddEdges`, about the builder): the operations
 * of one index and of one edge, then the whole partition: last write wins,
 * one primary write per distinct key in ascending key order, each edge's
 * index operations right before its primary write, all-or-nothing abort,
 * and the effect of the ignore-existed-index flag.
 */
module EdgeBatchProperties {
  import opened Options
  import opened Keys
  import opened EdgeBatch

  // ---------------------------------------------------------------------
  // The index operations of one edge
  // ---------------------------------------------------------------------

  /** Every index operation of an edge writes an entry of one of the edge
      type's indexes for that edge; insertions carry the empty value; and
      when existing entries are ignored, or there is no old row, nothing is
      removed. */
  lemma {:induction false} IndexOpsShape(ignore: bool, schema: Schema, part: PartitionId, key: EdgeKey, oldRow: Option<Row>, newRow: Row, indexes: seq<IndexItem>)
    ensures forall op :: op in IndexOps(ignore, schema, part, key, oldRow, newRow, indexes) ==>
              op.key.IndexEntry? && EntryOf(op.key.ik, part, key, indexes)
    ensures forall op :: op in IndexOps(ignore, schema, part, key, oldRow, newRow, indexes) && op.Put? ==> op.value == []
    ensures ignore || oldRow.None? ==> forall op :: op in IndexOps(ignore, schema, part, key, oldRow, newRow, indexes) ==> op.Put?
    decreases |indexes|
  {
    if indexes != [] {
      var init := indexes[..|indexes| - 1];
      var last := indexes[|indexes| - 1];
      IndexOpsShape(ignore, schema, part, key, oldRow, newRow, init);
      forall op | op in IndexOps(ignore, schema, part, key, oldRow, newRow, indexes)
        ensures op.key.IndexEntry? && EntryOf(op.key.ik, part, key, indexes)
      {
        if op in IndexOps(ignore, schema, part, key, oldRow, newRow, init) {
          var i :| 0 <= i < |init| && init[i].edgeType == key.edgeType && init[i].indexId == op.key.ik.indexId;
          assert indexes[i] == init[i];
        } else {
          assert indexes[|indexes| - 1] == last;
        }
      }
    }
  }

  /** `ik` is the entry, under one of `indexes` that belongs to the edge
      type of `key`, computed from `row`. */
  ghost predicate EntryFrom(schema: Schema, part: PartitionId, key: EdgeKey, row: Row, indexes: seq<IndexItem>, ik: IndexKey) {
    exists i :: 0 <= i < |indexes| && indexes[i].edgeType == key.edgeType
      && IndexKeyFor(schema, part, row, key, indexes[i]) == Some(ik)
  }

  /** The operations one index contributes for one edge: the removal of
      the entry built from the old row and the insertion, with the empty
      value, of the entry built from the new row, each only for an index of
      the edge's type and only when the entry can be built. */
  lemma IndexStepMembers(ignore: bool, schema: Schema, part: PartitionId, key: EdgeKey, oldRow: Option<Row>, newRow: Row, index: IndexItem, ik: IndexKey, v: Bytes)
    ensures Remove(IndexEntry(ik)) in IndexStep(ignore, schema, part, key, oldRow, newRow, index) <==>
              index.edgeType == key.edgeType && !ignore && oldRow.Some? && IndexKeyFor(schema, part, oldRow.value, key, index) == Some(ik)
    ensures Put(IndexEntry(ik), v) in IndexStep(ignore, schema, part, key, oldRow, newRow, index) <==>
              index.edgeType == key.edgeType && v == [] && IndexKeyFor(schema, part, newRow, key, index) == Some(ik)
  {
  }

  /** An entry built under some of `indexes` is built under the ones before
      the last, or under the last. */
  lemma EntryFromSplit(schema: Schema, part: PartitionId, key: EdgeKey, row: Row, indexes: seq<IndexItem>, ik: IndexKey)
    requires indexes != []
    ensures EntryFrom(schema, part, key, row, indexes, ik) <==>
              || EntryFrom(schema, part, key, row, indexes[..|indexes| - 1], ik)
              || (indexes[|indexes| - 1].edgeType == key.edgeType
                  && IndexKeyFor(schema, part, row, key, indexes[|indexes| - 1]) == Some(ik))
  {
    var init := indexes[..|indexes| - 1];
    if EntryFrom(schema, part, key, row, indexes, ik) {
      var i :| 0 <= i < |indexes| && indexes[i].edgeType == key.edgeType
               && IndexKeyFor(schema, part, row, key, indexes[i]) == Some(ik);
      if i < |init| {
        assert init[i] == indexes[i];
      }
    }
    if EntryFrom(schema, part, key, row, init, ik) {
      var i :| 0 <= i < |init| && init[i].edgeType == key.edgeType
               && IndexKeyFor(schema, part, row, key, init[i]) == Some(ik);
      assert indexes[i] == init[i];
    }
  }

  /** The removals of an edge's index operations are exactly the entries,
      under the edge type's indexes, computed from the old row when existing
      entries are not ignored. */
  lemma {:induction false} IndexOpsRemovals(ignore: bool, schema: Schema, part: PartitionId, key: EdgeKey, oldRow: Option<Row>, newRow: Row, indexes: seq<IndexItem>)
    ensures forall ik :: Remove(IndexEntry(ik)) in IndexOps(ignore, schema, part, key, oldRow, newRow, indexes) <==>
              !ignore && oldRow.Some? && EntryFrom(schema, part, key, oldRow.value, indexes, ik)
    decreases |indexes|
  {
    if indexes != [] {
      var init := indexes[..|indexes| - 1];
      var last := indexes[|indexes| - 1];
      IndexOpsRemovals(ignore, schema, part, key, oldRow, newRow, init);
      var prefix := IndexOps(ignore, schema, part, key, oldRow, newRow, init);
      var step := IndexStep(ignore, schema, part, key, oldRow, newRow, last);
      assert IndexOps(ignore, schema, part, key, oldRow, newRow, indexes) == prefix + step;
      forall ik ensures Remove(IndexEntry(ik)) in prefix + step <==>
          !ignore && oldRow.Some? && EntryFrom(schema, part, key, oldRow.value, indexes, ik)
      {
        IndexStepMembers(ignore, schema, part, key, oldRow, newRow, last, ik, []);
        if oldRow.Some? {
          EntryFromSplit(schema, part, key, oldRow.value, indexes, ik);
        }
      }
    }
  }

  /** The insertions of an edge's index operations are exactly the entries,
      under the edge type's indexes, computed from the new row, each with the
      empty value. */
  lemma {:induction false} IndexOpsInsertions(ignore: bool, schema: Schema, part: PartitionId, key: EdgeKey, oldRow: Option<Row>, newRow: Row, indexes: seq<IndexItem>)
    ensures forall ik, v :: Put(IndexEntry(ik), v) in IndexOps(ignore, schema, part, key, oldRow, newRow, indexes) <==>
              v == [] && EntryFrom(schema, part, key, newRow, indexes, ik)
    decreases |indexes|
  {
    if indexes != [] {
      var init := indexes[..|indexes| - 1];
      var last := indexes[|indexes| - 1];
      IndexOpsInsertions(ignore, schema, part, key, oldRow, newRow, init);
      var prefix := IndexOps(ignore, schema, part, key, oldRow, newRow, init);
      var step := IndexStep(ignore, schema, part, key, oldRow, newRow, last);
      assert IndexOps(ignore, schema, part, key, oldRow, newRow, indexes) == prefix + step;
      forall ik, v ensures Put(IndexEntry(ik), v) in prefix + step <==>
          v == [] && EntryFrom(schema, part, key, newRow, indexes, ik)
      {
        IndexStepMembers(ignore, schema, part, key, oldRow, newRow, last, ik, v);
        EntryFromSplit(schema, part, key, newRow, indexes, ik);
      }
    }
  }

  /** The removals of an edge's index operations are exactly the entries,
      under the edge type's indexes, computed from the old row when existing
      entries are not ignored; the insertions are exactly the entries
      computed from the new row, with the empty value. */
  lemma IndexOpsExact(ignore: bool, schema: Schema, part: PartitionId, key: EdgeKey, oldRow: Option<Row>, newRow: Row, indexes: seq<IndexItem>)
    ensures forall ik :: Remove(IndexEntry(ik)) in IndexOps(ignore, schema, part, key, oldRow, newRow, indexes) <==>
              !ignore && oldRow.Some? && EntryFrom(schema, part, key, oldRow.value, indexes, ik)
    ensures forall ik, v :: Put(IndexEntry(ik), v) in IndexOps(ignore, schema, part, key, oldRow, newRow, indexes) <==>
              v == [] && EntryFrom(schema, part, key, newRow, indexes, ik)
  {
    IndexOpsRemovals(ignore, schema, part, key, oldRow, newRow, indexes);
    IndexOpsInsertions(ignore, schema, part, key, oldRow, newRow, indexes);
  }

  /** The index step of an index of the edge's type whose old and new
      entries can both be built: the removal of the old one, then the
      insertion of the new one. */
  lemma IndexStepBoth(ignore: bool, schema: Schema, part: PartitionId, key: EdgeKey, oldRow: Option<Row>, newRow: Row, index: IndexItem)
    requires index.edgeType == key.edgeType && !ignore && oldRow.Some?
    requires IndexKeyFor(schema, part, oldRow.value, key, index).Some?
    requires IndexKeyFor(schema, part, newRow, key, index).Some?
    ensures IndexStep(ignore, schema, part, key, oldRow, newRow, index) ==
              [Remove(IndexEntry(IndexKeyFor(schema, part, oldRow.value, key, index).value)),
               Put(IndexEntry(IndexKeyFor(schema, part, newRow, key, index).value), [])]
  {
  }

  /** Two neighbours of a sequence stay neighbours at the same place when
      more is appended. */
  lemma NeighboursKept(a: seq<Op>, b: seq<Op>, j: nat, x: Op, y: Op)
    requires j + 1 < |a| && a[j] == x && a[j + 1] == y
    ensures j + 1 < |a + b| && (a + b)[j] == x && (a + b)[j + 1] == y
  {
  }

  /** For an index of the edge type whose old and new entries can both be
      built, the removal of the old entry comes right before the insertion
      of the new one. */
  lemma {:induction false} IndexOpsRemoveThenPut(ignore: bool, schema: Schema, part: PartitionId, key: EdgeKey, oldRow: Option<Row>, newRow: Row, indexes: seq<IndexItem>, i: nat)
    requires i < |indexes| && indexes[i].edgeType == key.edgeType
    requires !ignore && oldRow.Some?
    requires IndexKeyFor(schema, part, oldRow.value, key, indexes[i]).Some?
    requires IndexKeyFor(schema, part, newRow, key, indexes[i]).Some?
    ensures exists j :: 0 <= j < |IndexOps(ignore, schema, part, key, oldRow, newRow, indexes)| - 1
              && IndexOps(ignore, schema, part, key, oldRow, newRow, indexes)[j]
                   == Remove(IndexEntry(IndexKeyFor(schema, part, oldRow.value, key, indexes[i]).value))
              && IndexOps(ignore, schema, part, key, oldRow, newRow, indexes)[j + 1]
                   == Put(IndexEntry(IndexKeyFor(schema, part, newRow, key, indexes[i]).value), [])
    decreases |indexes|
  {
    var init := indexes[..|indexes| - 1];
    var last := indexes[|indexes| - 1];
    var prefix := IndexOps(ignore, schema, part, key, oldRow, newRow, init);
    var step := IndexStep(ignore, schema, part, key, oldRow, newRow, last);
    var ops := IndexOps(ignore, schema, part, key, oldRow, newRow, indexes);
    assert ops == prefix + step;
    var oi := IndexKeyFor(schema, part, oldRow.value, key, indexes[i]).value;
    var ni := IndexKeyFor(schema, part, newRow, key, indexes[i]).value;
    if i == |indexes| - 1 {
      IndexStepBoth(ignore, schema, part, key, oldRow, newRow, last);
      NeighboursKept(prefix + step, [], |prefix|, Remove(IndexEntry(oi)), Put(IndexEntry(ni), []));
      assert prefix + step + [] == ops;
    } else {
      assert init[i] == indexes[i];
      IndexOpsRemoveThenPut(ignore, schema, part, key, oldRow, newRow, init, i);
      var j :| 0 <= j < |prefix| - 1 && prefix[j] == Remove(IndexEntry(oi)) && prefix[j + 1] == Put(IndexEntry(ni), []);
      NeighboursKept(prefix, step, j, Remove(IndexEntry(oi)), Put(IndexEntry(ni), []));
    }
  }

  // ---------------------------------------------------------------------
  // The operations of one edge
  // ---------------------------------------------------------------------

  /** The edge gives up: its type has an index and either the stored value
      it replaces (read only when existing entries are not ignored) is
      non-empty and does not decode, or its new properties do not decode. */
  ghost predicate GivesUp(env: Env, part: PartitionId, key: EdgeKey, props: Bytes) {
    var val := FindObsoleteIndex(env, part, key);
    && HasIndex(env.indexes, key.edgeType)
    && (|| (!env.ignoreExistedIndex && val != [] && env.schema.decode(env.spaceId, key.edgeType, val).None?)
        || env.schema.decode(env.spaceId, key.edgeType, props).None?)
  }

  /** `ik` is an entry of the record the edge replaces: existing entries are
      not ignored, the stored value is found, non-empty and decodes, and `ik`
      is computed from that row under an index of the edge type. */
  ghost predicate ObsoleteEntry(env: Env, part: PartitionId, key: EdgeKey, ik: IndexKey) {
    var val := FindObsoleteIndex(env, part, key);
    && !env.ignoreExistedIndex && val != []
    && env.schema.decode(env.spaceId, key.edgeType, val).Some?
    && EntryFrom(env.schema, part, key, env.schema.decode(env.spaceId, key.edgeType, val).value, env.indexes, ik)
  }

  /** `ik` is an entry of the edge's new row under an index of its type. */
  ghost predicate NewEntry(env: Env, part: PartitionId, key: EdgeKey, props: Bytes, ik: IndexKey) {
    && env.schema.decode(env.spaceId, key.edgeType, props).Some?
    && EntryFrom(env.schema, part, key, env.schema.decode(env.spaceId, key.edgeType, props).value, env.indexes, ik)
  }

  /** An edge gives up exactly when one of the rows its indexes need does
      not decode; whether index fields can be collected plays no part. */
  lemma EdgeOpsGivesUp(env: Env, part: PartitionId, key: EdgeKey, props: Bytes, collect: (Row, seq<FieldName>) -> Option<Bytes>)
    ensures EdgeOps(env, part, key, props).None? <==> GivesUp(env, part, key, props)
    ensures EdgeOps(env.(schema := env.schema.(collect := collect)), part, key, props).None? <==> GivesUp(env, part, key, props)
  {
  }

  /** The layout of an edge's operations: its index operations, each an
      entry of one of the edge type's indexes for this edge, then its primary
      write. An edge whose type has no index is written alone, whatever the
      store and the schema layer hold. */
  lemma EdgeOpsLayout(env: Env, part: PartitionId, key: EdgeKey, props: Bytes, store: Store, schema: Schema)
    ensures !HasIndex(env.indexes, key.edgeType) ==>
              EdgeOps(env.(store := store, schema := schema), part, key, props) == Some([Put(Primary(key), props)])
    ensures EdgeOps(env, part, key, props).Some? ==>
              var ops := EdgeOps(env, part, key, props).value;
              && |ops| > 0 && ops[|ops| - 1] == Put(Primary(key), props)
              && (forall j :: 0 <= j < |ops| - 1 ==> ops[j].key.IndexEntry? && EntryOf(ops[j].key.ik, part, key, env.indexes))
              && (env.ignoreExistedIndex ==> forall op :: op in ops ==> op.Put?)
  {
    if EdgeOps(env, part, key, props).Some? && HasIndex(env.indexes, key.edgeType) {
      var newRow := env.schema.decode(env.spaceId, key.edgeType, props).value;
      var idx := IndexOps(env.ignoreExistedIndex, env.schema, part, key, OldRow(ObsoleteLookup(env, part, key)), newRow, env.indexes);
      IndexOpsShape(env.ignoreExistedIndex, env.schema, part, key, OldRow(ObsoleteLookup(env, part, key)), newRow, env.indexes);
      var ops := idx + [Put(Primary(key), props)];
      assert forall j :: 0 <= j < |ops| - 1 ==> ops[j] == idx[j];
    }
  }

  /** What an edge writes besides its primary record: it removes exactly
      the entries of the record it replaces, and inserts exactly the entries
      of its new row, with the empty value. Only index entries are removed. */
  lemma EdgeOpsExact(env: Env, part: PartitionId, key: EdgeKey, props: Bytes)
    requires EdgeOps(env, part, key, props).Some?
    ensures forall ik :: Remove(IndexEntry(ik)) in EdgeOps(env, part, key, props).value <==> ObsoleteEntry(env, part, key, ik)
    ensures forall ik, v :: Put(IndexEntry(ik), v) in EdgeOps(env, part, key, props).value <==>
              v == [] && NewEntry(env, part, key, props, ik)
    ensures forall op :: op in EdgeOps(env, part, key, props).value && op.Remove? ==> op.key.IndexEntry?
  {
    var ops := EdgeOps(env, part, key, props).value;
    if HasIndex(env.indexes, key.edgeType) {
      var oldRow := OldRow(ObsoleteLookup(env, part, key));
      var newRow := env.schema.decode(env.spaceId, key.edgeType, props).value;
      var idx := IndexOps(env.ignoreExistedIndex, env.schema, part, key, oldRow, newRow, env.indexes);
      IndexOpsExact(env.ignoreExistedIndex, env.schema, part, key, oldRow, newRow, env.indexes);
      IndexOpsShape(env.ignoreExistedIndex, env.schema, part, key, oldRow, newRow, env.indexes);
      assert ops == idx + [Put(Primary(key), props)];
    } else {
      assert ops == [Put(Primary(key), props)];
    }
  }

  /** For an index of the edge type under which both the replaced record's
      entry and the new entry can be built, the edge removes the old entry
      right before it inserts the new one. */
  lemma EdgeOpsRemoveThenPut(env: Env, part: PartitionId, key: EdgeKey, props: Bytes, i: nat)
    requires EdgeOps(env, part, key, props).Some?
    requires i < |env.indexes| && env.indexes[i].edgeType == key.edgeType
    requires !env.ignoreExistedIndex && FindObsoleteIndex(env, part, key) != []
    requires env.schema.decode(env.spaceId, key.edgeType, FindObsoleteIndex(env, part, key)).Some?
    requires env.schema.decode(env.spaceId, key.edgeType, props).Some?
    requires IndexKeyFor(env.schema, part, env.schema.decode(env.spaceId, key.edgeType, FindObsoleteIndex(env, part, key)).value, key, env.indexes[i]).Some?
    requires IndexKeyFor(env.schema, part, env.schema.decode(env.spaceId, key.edgeType, props).value, key, env.indexes[i]).Some?
    ensures exists j :: 0 <= j < |EdgeOps(env, part, key, props).value| - 1
              && EdgeOps(env, part, key, props).value[j] == Remove(IndexEntry(IndexKeyFor(env.schema, part,
                   env.schema.decode(env.spaceId, key.edgeType, FindObsoleteIndex(env, part, key)).value, key, env.indexes[i]).value))
              && EdgeOps(env, part, key, props).value[j + 1] == Put(IndexEntry(IndexKeyFor(env.schema, part,
                   env.schema.decode(env.spaceId, key.edgeType, props).value, key, env.indexes[i]).value), [])
  {
    var oldRow := OldRow(ObsoleteLookup(env, part, key));
    var newRow := env.schema.decode(env.spaceId, key.edgeType, props).value;
    assert HasIndex(env.indexes, key.edgeType);
    var idx := IndexOps(env.ignoreExistedIndex, env.schema, part, key, oldRow, newRow, env.indexes);
    IndexOpsRemoveThenPut(env.ignoreExistedIndex, env.schema, part, key, oldRow, newRow, env.indexes, i);
    var ops := EdgeOps(env, part, key, props).value;
    assert ops == idx + [Put(Primary(key), props)];
    var j :| 0 <= j < |idx| - 1 && idx[j] == Remove(IndexEntry(IndexKeyFor(env.schema, part, oldRow.value, key, env.indexes[i]).value))
               && idx[j + 1] == Put(IndexEntry(IndexKeyFor(env.schema, part, newRow, key, env.indexes[i]).value), []);
    assert ops[j] == idx[j] && ops[j + 1] == idx[j + 1];
  }

  /** The obsolete-record lookup reads the identity of the edge, not its
      version: two keys that agree on src, edge type, rank and dst find the
      same record, whatever their versions. */
  lemma ObsoleteLookupIgnoresVersion(env: Env, part: PartitionId, key: EdgeKey, other: EdgeKey)
    requires key.src == other.src && key.edgeType == other.edgeType && key.rank == other.rank && key.dst == other.dst
    ensures PrefixOf(part, key) == PrefixOf(part, other)
    ensures FindObsoleteIndex(env, part, key) == FindObsoleteIndex(env, part, other)
    ensures ObsoleteLookup(env, part, key) == ObsoleteLookup(env, part, other)
  {
  }

  /** An index entry names the edge by src, rank and dst only: keys that
      differ in edge type or version give the same entry. */
  lemma IndexKeyIgnoresTypeAndVersion(schema: Schema, part: PartitionId, row: Row, key: EdgeKey, index: IndexItem, t: EdgeType, v: EdgeVersion)
    ensures IndexKeyFor(schema, part, row, key, index) == IndexKeyFor(schema, part, row, key.(edgeType := t, version := v), index)
  {
  }

  /** An index entry identifies the edge and the values it was built from:
      two entries of the same index that are equal come from edges with the
      same src, rank and dst and from rows with the same collected values.
      So the removal of one edge's old entry never deletes the entry of an
      edge with a different src, rank or dst. */
  lemma IndexEntryIdentifiesEdge(schema: Schema, part1: PartitionId, row1: Row, key1: EdgeKey,
                                 part2: PartitionId, row2: Row, key2: EdgeKey, index: IndexItem)
    requires IndexKeyFor(schema, part1, row1, key1, index).Some?
    requires IndexKeyFor(schema, part1, row1, key1, index) == IndexKeyFor(schema, part2, row2, key2, index)
    ensures part1 == part2
    ensures key1.src == key2.src && key1.rank == key2.rank && key1.dst == key2.dst
    ensures schema.collect(row1, index.fields) == schema.collect(row2, index.fields)
  {
  }

  /** Entries of different indexes never coincide when the index ids
      differ. */
  lemma IndexEntriesOfDistinctIndexesDiffer(schema: Schema, part: PartitionId, row1: Row, row2: Row, key1: EdgeKey, key2: EdgeKey, index1: IndexItem, index2: IndexItem)
    requires index1.indexId != index2.indexId
    requires IndexKeyFor(schema, part, row1, key1, index1).Some?
    ensures IndexKeyFor(schema, part, row1, key1, index1) != IndexKeyFor(schema, part, row2, key2, index2)
  {
  }

  // ---------------------------------------------------------------------
  // One partition
  // ---------------------------------------------------------------------

  /** Edge `i` is the last of the partition's edges with its key. */
  ghost predicate LastOccurrence(part: PartitionId, version: EdgeVersion, edges: seq<Edge>, i: int)
    requires 0 <= i < |edges|
  {
    forall j :: i < j < |edges| ==> KeyOf(part, version, edges[j]) != KeyOf(part, version, edges[i])
  }

  /** Every edge's key is a key of the deduplicated map. */
  lemma {:induction false} DedupHasEveryKey(part: PartitionId, version: EdgeVersion, edges: seq<Edge>)
    ensures forall i :: 0 <= i < |edges| ==> KeyOf(part, version, edges[i]) in Dedup(part, version, edges)
    decreases |edges|
  {
    if edges != [] {
      var n := |edges| - 1;
      DedupHasEveryKey(part, version, edges[..n]);
      forall i | 0 <= i < n ensures KeyOf(part, version, edges[i]) in Dedup(part, version, edges) {
        assert edges[..n][i] == edges[i];
      }
    }
  }

  /** An edge that is the last with its key among all but the final edge
      stays the last when the final edge has another key. */
  lemma LastStaysLast(part: PartitionId, version: EdgeVersion, edges: seq<Edge>, i: nat)
    requires i < |edges| - 1
    requires LastOccurrence(part, version, edges[..|edges| - 1], i)
    requires KeyOf(part, version, edges[|edges| - 1]) != KeyOf(part, version, edges[i])
    ensures LastOccurrence(part, version, edges, i)
  {
    var init := edges[..|edges| - 1];
    forall j | i < j < |edges| ensures KeyOf(part, version, edges[j]) != KeyOf(part, version, edges[i]) {
      if j < |init| {
        assert init[j] == edges[j] && init[i] == edges[i];
      }
    }
  }

  /** Deduplication keeps one entry per distinct key of the partition's
      edges, holding the properties of the last edge with that key. */
  lemma {:induction false} DedupLastWins(part: PartitionId, version: EdgeVersion, edges: seq<Edge>)
    ensures forall i :: 0 <= i < |edges| ==> KeyOf(part, version, edges[i]) in Dedup(part, version, edges)
    ensures forall k :: k in Dedup(part, version, edges) ==>
              exists i :: 0 <= i < |edges| && KeyOf(part, version, edges[i]) == k
                && LastOccurrence(part, version, edges, i) && Dedup(part, version, edges)[k] == edges[i].props
    decreases |edges|
  {
    DedupHasEveryKey(part, version, edges);
    if edges != [] {
      var n := |edges| - 1;
      var init := edges[..n];
      var lk := KeyOf(part, version, edges[n]);
      var m := Dedup(part, version, edges);
      DedupLastWins(part, version, init);
      forall k | k in m
        ensures exists i :: 0 <= i < |edges| && KeyOf(part, version, edges[i]) == k
                  && LastOccurrence(part, version, edges, i) && m[k] == edges[i].props
      {
        if k == lk {
          assert LastOccurrence(part, version, edges, n);
        } else {
          assert k in Dedup(part, version, init);
          var i :| 0 <= i < n && KeyOf(part, version, init[i]) == k
                   && LastOccurrence(part, version, init, i) && Dedup(part, version, init)[k] == init[i].props;
          assert init[i] == edges[i];
          LastStaysLast(part, version, edges, i);
        }
      }
    }
  }

  /** The batch of some keys gives up exactly when one of those keys' edges
      gives up. */
  lemma {:induction false} BatchNoneIff(env: Env, part: PartitionId, m: map<EdgeKey, Bytes>, ks: seq<EdgeKey>)
    requires forall k :: k in ks ==> k in m
    ensures BatchOf(env, part, m, ks).None? <==> exists k :: k in ks && EdgeOps(env, part, k, m[k]).None?
    decreases |ks|
  {
    if ks != [] {
      var init := ks[..|ks| - 1];
      var last := ks[|ks| - 1];
      assert ks == init + [last];
      BatchNoneIff(env, part, m, init);
      BatchStep(env, part, m, init, last);
      assert forall k :: k in ks <==> k in init || k == last;
    }
  }

  /** All or nothing: the partition's batch is `None` exactly when one of
      its distinct keys, with the properties of the last edge carrying that
      key, gives up. An earlier edge replaced by a later one with the same
      key is never decoded. */
  lemma AddEdgesAbortIff(env: Env, version: EdgeVersion, part: PartitionId, edges: seq<Edge>)
    ensures AddEdgesSpec(env, version, part, edges).None? <==>
              exists i :: 0 <= i < |edges| && LastOccurrence(part, version, edges, i)
                && GivesUp(env, part, KeyOf(part, version, edges[i]), edges[i].props)
  {
    var m := Dedup(part, version, edges);
    BatchNoneIff(env, part, m, Ordered(m.Keys));
    DedupLastWins(part, version, edges);
    forall k | k in m ensures EdgeOps(env, part, k, m[k]).None? <==> GivesUp(env, part, k, m[k]) {
      EdgeOpsGivesUp(env, part, k, m[k], env.schema.collect);
    }
    if exists i :: 0 <= i < |edges| && LastOccurrence(part, version, edges, i)
         && GivesUp(env, part, KeyOf(part, version, edges[i]), edges[i].props) {
      var i :| 0 <= i < |edges| && LastOccurrence(part, version, edges, i)
         && GivesUp(env, part, KeyOf(part, version, edges[i]), edges[i].props);
      var k := KeyOf(part, version, edges[i]);
      var i' :| 0 <= i' < |edges| && KeyOf(part, version, edges[i']) == k
                && LastOccurrence(part, version, edges, i') && m[k] == edges[i'].props;
      assert i == i';
      assert k in Ordered(m.Keys);
    }
  }

  /** The operations of a batch are exactly those of its keys' edges. */
  lemma {:induction false} BatchMembers(env: Env, part: PartitionId, m: map<EdgeKey, Bytes>, ks: seq<EdgeKey>)
    requires forall k :: k in ks ==> k in m
    requires BatchOf(env, part, m, ks).Some?
    ensures forall k :: k in ks ==> EdgeOps(env, part, k, m[k]).Some?
    ensures forall op :: op in BatchOf(env, part, m, ks).value <==>
              exists k :: k in ks && EdgeOps(env, part, k, m[k]).Some? && op in EdgeOps(env, part, k, m[k]).value
    decreases |ks|
  {
    if ks != [] {
      var init := ks[..|ks| - 1];
      var last := ks[|ks| - 1];
      assert ks == init + [last];
      BatchStep(env, part, m, init, last);
      BatchMembers(env, part, m, init);
      assert forall k :: k in ks <==> k in init || k == last;
    }
  }

  /** Everything one edge's operations hold: its own primary write and no
      other, the removals of the entries of the record it replaces, and the
      insertions of the entries of its new row, with the empty value. */
  lemma EdgeOpsMembers(env: Env, part: PartitionId, key: EdgeKey, props: Bytes)
    requires EdgeOps(env, part, key, props).Some?
    ensures forall k, v :: Put(Primary(k), v) in EdgeOps(env, part, key, props).value <==> k == key && v == props
    ensures forall ik :: Remove(IndexEntry(ik)) in EdgeOps(env, part, key, props).value <==> ObsoleteEntry(env, part, key, ik)
    ensures forall ik, v :: Put(IndexEntry(ik), v) in EdgeOps(env, part, key, props).value <==>
              v == [] && NewEntry(env, part, key, props, ik)
    ensures forall op :: op in EdgeOps(env, part, key, props).value && op.Remove? ==> op.key.IndexEntry?
  {
    var ops := EdgeOps(env, part, key, props).value;
    EdgeOpsExact(env, part, key, props);
    EdgeOpsLayout(env, part, key, props, env.store, env.schema);
    forall k, v | Put(Primary(k), v) in ops ensures k == key && v == props {
      var j :| 0 <= j < |ops| && ops[j] == Put(Primary(k), v);
    }
  }

  /** Everything the partition's batch holds, when it does not give up: the
      primary write of each distinct key with the properties of its last
      edge, the removal of each entry of each record that an edge replaces,
      and the insertion of each entry of each edge's new row, with the empty
      value; nothing else. */
  lemma AddEdgesExact(env: Env, version: EdgeVersion, part: PartitionId, edges: seq<Edge>)
    requires AddEdgesSpec(env, version, part, edges).Some?
    ensures forall k, v :: Put(Primary(k), v) in AddEdgesSpec(env, version, part, edges).value <==>
              k in Dedup(part, version, edges) && v == Dedup(part, version, edges)[k]
    ensures forall ik :: Remove(IndexEntry(ik)) in AddEdgesSpec(env, version, part, edges).value <==>
              exists k :: k in Dedup(part, version, edges) && ObsoleteEntry(env, part, k, ik)
    ensures forall ik, v :: Put(IndexEntry(ik), v) in AddEdgesSpec(env, version, part, edges).value <==>
              v == [] && exists k :: k in Dedup(part, version, edges) && NewEntry(env, part, k, Dedup(part, version, edges)[k], ik)
    ensures forall op :: op in AddEdgesSpec(env, version, part, edges).value && op.Remove? ==> op.key.IndexEntry?
  {
    var m := Dedup(part, version, edges);
    var ks := Ordered(m.Keys);
    BatchMembers(env, part, m, ks);
    forall k | k in m
      ensures var ops := EdgeOps(env, part, k, m[k]).value;
        && (forall k', v :: Put(Primary(k'), v) in ops <==> k' == k && v == m[k])
        && (forall ik :: Remove(IndexEntry(ik)) in ops <==> ObsoleteEntry(env, part, k, ik))
        && (forall ik, v :: Put(IndexEntry(ik), v) in ops <==> v == [] && NewEntry(env, part, k, m[k], ik))
        && (forall op :: op in ops && op.Remove? ==> op.key.IndexEntry?)
    {
      assert k in ks;
      EdgeOpsMembers(env, part, k, m[k]);
    }
  }

  /** The primary writes of a batch, in batch order. */
  function PrimaryWrites(ops: seq<Op>): (r: seq<Op>)
    ensures forall op :: op in r <==> op in ops && op.key.Primary?
  {
    if ops == [] then []
    else
      var last := ops[|ops| - 1];
      PrimaryWrites(ops[..|ops| - 1]) + (if last.key.Primary? then [last] else [])
  }

  lemma {:induction false} PrimaryWritesAppend(a: seq<Op>, b: seq<Op>)
    ensures PrimaryWrites(a + b) == PrimaryWrites(a) + PrimaryWrites(b)
    decreases |b|
  {
    if b == [] {
      assert a + b == a;
    } else {
      assert (a + b)[..|a + b| - 1] == a + b[..|b| - 1];
      PrimaryWritesAppend(a, b[..|b| - 1]);
    }
  }

  lemma {:induction false} NoPrimaryWrites(ops: seq<Op>)
    requires forall op :: op in ops ==> op.key.IndexEntry?
    ensures PrimaryWrites(ops) == []
    decreases |ops|
  {
    if ops != [] {
      NoPrimaryWrites(ops[..|ops| - 1]);
    }
  }

  /** An edge's operations hold one primary write: its own. */
  lemma EdgePrimaryWrites(env: Env, part: PartitionId, key: EdgeKey, props: Bytes)
    requires EdgeOps(env, part, key, props).Some?
    ensures PrimaryWrites(EdgeOps(env, part, key, props).value) == [Put(Primary(key), props)]
  {
    var e := EdgeOps(env, part, key, props).value;
    EdgeOpsLayout(env, part, key, props, env.store, env.schema);
    var idx := e[..|e| - 1];
    NoPrimaryWrites(idx);
    assert e == idx + [Put(Primary(key), props)];
  }

  /** Appending one key's write to the writes of the keys before it gives
      the writes of all the keys, position by position. */
  lemma WritesSnoc(m: map<EdgeKey, Bytes>, init: seq<EdgeKey>, last: EdgeKey, prevWrites: seq<Op>, writes: seq<Op>)
    requires forall k :: k in init ==> k in m
    requires last in m
    requires |prevWrites| == |init|
    requires forall i :: 0 <= i < |init| ==> prevWrites[i] == Put(Primary(init[i]), m[init[i]])
    requires writes == prevWrites + [Put(Primary(last), m[last])]
    ensures |writes| == |init + [last]|
    ensures forall i :: 0 <= i < |init + [last]| ==> writes[i] == Put(Primary((init + [last])[i]), m[(init + [last])[i]])
  {
    var ks := init + [last];
    forall i | 0 <= i < |ks| ensures writes[i] == Put(Primary(ks[i]), m[ks[i]]) {
      if i < |init| {
        assert writes[i] == prevWrites[i] && ks[i] == init[i];
      } else {
        assert writes[i] == Put(Primary(last), m[last]) && ks[i] == last;
      }
    }
  }

  /** The primary writes of a batch are those of its keys, in the order of
      the keys, each with its key's properties. */
  lemma {:induction false} BatchPrimaryWrites(env: Env, part: PartitionId, m: map<EdgeKey, Bytes>, ks: seq<EdgeKey>, ops: seq<Op>)
    requires forall k :: k in ks ==> k in m
    requires BatchOf(env, part, m, ks) == Some(ops)
    ensures |PrimaryWrites(ops)| == |ks|
    ensures forall i :: 0 <= i < |ks| ==> PrimaryWrites(ops)[i] == Put(Primary(ks[i]), m[ks[i]])
    decreases |ks|
  {
    if ks != [] {
      var init := ks[..|ks| - 1];
      var last := ks[|ks| - 1];
      assert ks == init + [last];
      BatchStep(env, part, m, init, last);
      var prev := BatchOf(env, part, m, init).value;
      var e := EdgeOps(env, part, last, m[last]).value;
      assert ops == prev + e;
      BatchPrimaryWrites(env, part, m, init, prev);
      EdgePrimaryWrites(env, part, last, m[last]);
      PrimaryWritesAppend(prev, e);
      WritesSnoc(m, init, last, PrimaryWrites(prev), PrimaryWrites(ops));
    }
  }

  /** One primary write per distinct key: the batch writes every distinct
      key of the partition, with the properties of its last edge, and
      nothing else under a primary key. */
  lemma AddEdgesPrimaryWrites(env: Env, version: EdgeVersion, part: PartitionId, edges: seq<Edge>, ops: seq<Op>)
    requires AddEdgesSpec(env, version, part, edges) == Some(ops)
    ensures |PrimaryWrites(ops)| == |Dedup(part, version, edges)|
    ensures forall i :: 0 <= i < |PrimaryWrites(ops)| ==>
              && PrimaryWrites(ops)[i].Put? && PrimaryWrites(ops)[i].key.Primary?
              && PrimaryWrites(ops)[i].key.ek in Dedup(part, version, edges)
              && PrimaryWrites(ops)[i].value == Dedup(part, version, edges)[PrimaryWrites(ops)[i].key.ek]
    ensures forall k :: k in Dedup(part, version, edges) ==>
              exists i :: 0 <= i < |PrimaryWrites(ops)| && PrimaryWrites(ops)[i].key == Primary(k)
  {
    var m := Dedup(part, version, edges);
    var ks := Ordered(m.Keys);
    var pw := PrimaryWrites(ops);
    BatchPrimaryWrites(env, part, m, ks, ops);
    forall k | k in m ensures exists i :: 0 <= i < |pw| && pw[i].key == Primary(k) {
      assert k in ks;
      var i :| 0 <= i < |ks| && ks[i] == k;
      assert pw[i].key == Primary(k);
    }
  }

  /** The primary writes come in strictly ascending key order, so no key is
      written twice. */
  lemma AddEdgesPrimaryWritesAscending(env: Env, version: EdgeVersion, part: PartitionId, edges: seq<Edge>, ops: seq<Op>)
    requires AddEdgesSpec(env, version, part, edges) == Some(ops)
    ensures forall i :: 0 <= i < |PrimaryWrites(ops)| ==> PrimaryWrites(ops)[i].key.Primary?
    ensures forall i, j :: 0 <= i < j < |PrimaryWrites(ops)| ==>
              KeyLess(PrimaryWrites(ops)[i].key.ek, PrimaryWrites(ops)[j].key.ek)
    ensures forall i, j :: 0 <= i < j < |PrimaryWrites(ops)| ==> PrimaryWrites(ops)[i].key != PrimaryWrites(ops)[j].key
  {
    var m := Dedup(part, version, edges);
    var ks := Ordered(m.Keys);
    var pw := PrimaryWrites(ops);
    BatchPrimaryWrites(env, part, m, ks, ops);
    OrderedAscending(m.Keys);
    forall i, j | 0 <= i < j < |pw| ensures pw[i].key != pw[j].key {
      KeyLessIsStrictTotalOrder(ks[i], ks[j], ks[j]);
    }
  }

  /** The entry of the last edge with a given key holds that edge's
      properties. */
  lemma DedupKeepsLast(part: PartitionId, version: EdgeVersion, edges: seq<Edge>, i: nat)
    requires i < |edges| && LastOccurrence(part, version, edges, i)
    ensures KeyOf(part, version, edges[i]) in Dedup(part, version, edges)
    ensures Dedup(part, version, edges)[KeyOf(part, version, edges[i])] == edges[i].props
  {
    var k := KeyOf(part, version, edges[i]);
    DedupLastWins(part, version, edges);
    var i' :| 0 <= i' < |edges| && KeyOf(part, version, edges[i']) == k
              && LastOccurrence(part, version, edges, i') && Dedup(part, version, edges)[k] == edges[i'].props;
    assert i' == i;
  }

  /** Last write wins, stated on the request: the last edge with a given key
      is written exactly once, with its own properties. */
  lemma LastWriteWins(env: Env, version: EdgeVersion, part: PartitionId, edges: seq<Edge>, ops: seq<Op>, i: nat)
    requires AddEdgesSpec(env, version, part, edges) == Some(ops)
    requires i < |edges| && LastOccurrence(part, version, edges, i)
    ensures exists j :: 0 <= j < |PrimaryWrites(ops)|
              && PrimaryWrites(ops)[j] == Put(Primary(KeyOf(part, version, edges[i])), edges[i].props)
              && forall j' :: 0 <= j' < |PrimaryWrites(ops)| && PrimaryWrites(ops)[j'].key == Primary(KeyOf(part, version, edges[i])) ==> j' == j
  {
    var k := KeyOf(part, version, edges[i]);
    DedupKeepsLast(part, version, edges, i);
    AddEdgesPrimaryWrites(env, version, part, edges, ops);
    AddEdgesPrimaryWritesAscending(env, version, part, edges, ops);
    var pw := PrimaryWrites(ops);
    var j :| 0 <= j < |pw| && pw[j].key == Primary(k);
    assert pw[j] == Put(Primary(k), edges[i].props);
  }

  /** The index operation at position `j` belongs to the next primary
      write: only index operations lie between them, and it is an entry of
      that edge under an index of the edge's type. */
  ghost predicate OwnedByNextWrite(ops: seq<Op>, j: int, part: PartitionId, indexes: seq<IndexItem>)
    requires 0 <= j < |ops| && ops[j].key.IndexEntry?
  {
    exists w :: j < w < |ops| && ops[w].Put? && ops[w].key.Primary?
      && (forall l :: j < l < w ==> ops[l].key.IndexEntry?)
      && EntryOf(ops[j].key.ik, part, ops[w].key.ek, indexes)
  }

  lemma OwnedExtends(prev: seq<Op>, e: seq<Op>, j: nat, part: PartitionId, indexes: seq<IndexItem>)
    requires j < |prev| && prev[j].key.IndexEntry? && OwnedByNextWrite(prev, j, part, indexes)
    ensures OwnedByNextWrite(prev + e, j, part, indexes)
  {
    var ops := prev + e;
    var w :| j < w < |prev| && prev[w].Put? && prev[w].key.Primary?
             && (forall l :: j < l < w ==> prev[l].key.IndexEntry?)
             && EntryOf(prev[j].key.ik, part, prev[w].key.ek, indexes);
    assert forall l :: 0 <= l < |prev| ==> ops[l] == prev[l];
  }

  lemma OwnedByLast(prev: seq<Op>, e: seq<Op>, j: nat, part: PartitionId, key: EdgeKey, indexes: seq<IndexItem>)
    requires |e| > 0 && e[|e| - 1].Put? && e[|e| - 1].key == Primary(key)
    requires forall l :: 0 <= l < |e| - 1 ==> e[l].key.IndexEntry? && EntryOf(e[l].key.ik, part, key, indexes)
    requires |prev| <= j < |prev + e| && (prev + e)[j].key.IndexEntry?
    ensures OwnedByNextWrite(prev + e, j, part, indexes)
  {
    var ops := prev + e;
    var w := |ops| - 1;
    assert ops[j] == e[j - |prev|];
    assert forall l :: j < l < w ==> ops[l] == e[l - |prev|];
    assert ops[w] == e[|e| - 1];
  }

  /** Each edge's operations are contiguous and end with its primary
      write: a batch ends with a primary write, and every index operation
      belongs to the next primary write. */
  lemma {:induction false} BatchGrouping(env: Env, part: PartitionId, m: map<EdgeKey, Bytes>, ks: seq<EdgeKey>, ops: seq<Op>)
    requires forall k :: k in ks ==> k in m
    requires BatchOf(env, part, m, ks) == Some(ops)
    ensures ops != [] ==> ops[|ops| - 1].Put? && ops[|ops| - 1].key.Primary?
    ensures forall j :: 0 <= j < |ops| && ops[j].key.IndexEntry? ==> OwnedByNextWrite(ops, j, part, env.indexes)
    decreases |ks|
  {
    if ks != [] {
      var init := ks[..|ks| - 1];
      var last := ks[|ks| - 1];
      assert ks == init + [last];
      BatchStep(env, part, m, init, last);
      var prev := BatchOf(env, part, m, init).value;
      var e := EdgeOps(env, part, last, m[last]).value;
      BatchGrouping(env, part, m, init, prev);
      EdgeOpsLayout(env, part, last, m[last], env.store, env.schema);
      assert ops == prev + e;
      forall j | 0 <= j < |ops| && ops[j].key.IndexEntry? ensures OwnedByNextWrite(ops, j, part, env.indexes) {
        if j < |prev| {
          OwnedExtends(prev, e, j, part, env.indexes);
        } else {
          OwnedByLast(prev, e, j, part, last, env.indexes);
        }
      }
    }
  }

  /** Each edge's operations are contiguous in the partition's batch, with
      its index operations right before its primary write. */
  lemma AddEdgesGrouping(env: Env, version: EdgeVersion, part: PartitionId, edges: seq<Edge>, ops: seq<Op>)
    requires AddEdgesSpec(env, version, part, edges) == Some(ops)
    ensures ops != [] ==> ops[|ops| - 1].Put? && ops[|ops| - 1].key.Primary?
    ensures forall j :: 0 <= j < |ops| && ops[j].key.IndexEntry? ==> OwnedByNextWrite(ops, j, part, env.indexes)
  {
    var m := Dedup(part, version, edges);
    BatchGrouping(env, part, m, Ordered(m.Keys), ops);
  }

  // ---------------------------------------------------------------------
  // The ignore-existed-index flag
  // ---------------------------------------------------------------------

  lemma {:induction false} BatchIgnoresStore(env: Env, part: PartitionId, m: map<EdgeKey, Bytes>, ks: seq<EdgeKey>, store: Store)
    requires env.ignoreExistedIndex
    requires forall k :: k in ks ==> k in m
    ensures BatchOf(env, part, m, ks) == BatchOf(env.(store := store), part, m, ks)
    decreases |ks|
  {
    if ks != [] {
      var init := ks[..|ks| - 1];
      var last := ks[|ks| - 1];
      BatchIgnoresStore(env, part, m, init, store);
      assert EdgeOps(env, part, last, m[last]) == EdgeOps(env.(store := store), part, last, m[last]);
    }
  }

  /** With the ignore-existed-index flag set, no stored record is read: the
      batch is the same whatever the store holds, and it removes nothing. */
  lemma IgnoreExistedIndex(env: Env, version: EdgeVersion, part: PartitionId, edges: seq<Edge>, store: Store)
    requires env.ignoreExistedIndex
    ensures AddEdgesSpec(env, version, part, edges) == AddEdgesSpec(env.(store := store), version, part, edges)
    ensures AddEdgesSpec(env, version, part, edges).Some? ==>
              forall op :: op in AddEdgesSpec(env, version, part, edges).value ==> op.Put?
  {
    var m := Dedup(part, version, edges);
    BatchIgnoresStore(env, part, m, Ordered(m.Keys), store);
    if AddEdgesSpec(env, version, part, edges).Some? {
      BatchMembers(env, part, m, Ordered(m.Keys));
      forall k | k in m {
        EdgeOpsLayout(env, part, k, m[k], env.store, env.schema);
      }
    }
  }
}
