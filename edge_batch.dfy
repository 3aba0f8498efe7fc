/**
 * The indexed write path for one partition: deduplicate the partition's
 * edges, visit them in key order, and for each one emit the index removals,
 * the index insertions and the primary write, or give up on the whole
 * partition when a row that index maintenance needs cannot be decoded.
 *
 * `AddEdgesSpec` is the functional definition of what the builder returns;
 * the method `AddEdges` is the step-by-step builder, proved to return it.
 */
module EdgeBatch {
  import opened Options
  import opened Keys

  type FieldName = seq<char>

  /** An edge index: its id, the edge type it belongs to and the fields it
      covers, in declared order. */
  datatype IndexItem = IndexItem(indexId: IndexId, edgeType: EdgeType, fields: seq<FieldName>)

  /** A decoded property row: column name to encoded value. It is only ever
      produced and consumed by the collaborators below. */
  datatype Row = Row(columns: map<FieldName, Bytes>)

  /** The newest stored value of each edge identity in each space. An
      identity that is absent stands for a first-match read that did not
      succeed, whatever the reason. */
  type Store = map<(SpaceId, EdgePrefix), Bytes>

  /** What the write path asks of the schema layer.
      - `decode`: the schema-aware row reader for a space and an edge type;
        `None` is the null reader it returns for a malformed row.
      - `collect`: reads the named fields of a decoded row, in order, and
        concatenates their encodings; `None` is a failed collection. */
  datatype Schema = Schema(
    decode: (SpaceId, EdgeType, Bytes) -> Option<Row>,
    collect: (Row, seq<FieldName>) -> Option<Bytes>)

  /** The request-scoped state every partition's batch builder reads: the
      space, its edge indexes, the request's ignore-existed-index flag, the
      store and the schema layer. */
  datatype Env = Env(spaceId: SpaceId, indexes: seq<IndexItem>, ignoreExistedIndex: bool, store: Store, schema: Schema)

  /** A key written by a batch: a primary edge record or an index entry. */
  datatype Key = Primary(ek: EdgeKey) | IndexEntry(ik: IndexKey)

  /** One operation of an atomic batch. */
  datatype Op = Put(key: Key, value: Bytes) | Remove(key: Key)

  // ---------------------------------------------------------------------
  // Collaborator-level helpers
  // ---------------------------------------------------------------------

  /** Some index of the space belongs to edge type `t`. */
  predicate HasIndex(indexes: seq<IndexItem>, t: EdgeType) {
    exists i | 0 <= i < |indexes| :: indexes[i].edgeType == t
  }

  /** The newest stored value of the edge that `key` names, found by its
      identity prefix; the empty value when the lookup does not succeed. */
  function FindObsoleteIndex(env: Env, part: PartitionId, key: EdgeKey): (val: Bytes)
    ensures (env.spaceId, PrefixOf(part, key)) !in env.store ==> val == []
    ensures (env.spaceId, PrefixOf(part, key)) in env.store ==>
              val == env.store[(env.spaceId, PrefixOf(part, key))]
  {
    var id := (env.spaceId, PrefixOf(part, key));
    if id in env.store then env.store[id] else []
  }

  /** The entry of `index` for the edge `key` whose decoded row is `row`, or
      `None` when the index's fields cannot be collected from the row. The
      entry is made of the partition, the index id, the src, rank and dst of
      the edge key and the collected values; the key's edge type and version
      play no part. */
  function IndexKeyFor(schema: Schema, part: PartitionId, row: Row, key: EdgeKey, index: IndexItem): (r: Option<IndexKey>)
    ensures r.Some? <==> schema.collect(row, index.fields).Some?
    ensures r.Some? ==>
              && r.value.part == part && r.value.indexId == index.indexId
              && r.value.src == key.src && r.value.rank == key.rank && r.value.dst == key.dst
              && r.value.values == schema.collect(row, index.fields).value
  {
    match schema.collect(row, index.fields)
    case None => None
    case Some(values) => Some(IndexKey(part, index.indexId, key.src, key.rank, key.dst, values))
  }

  /** `ik` is an entry, in partition `part`, of one of `indexes` that belongs
      to the edge type of `key`, and it names the src, rank and dst of `key`. */
  ghost predicate EntryOf(ik: IndexKey, part: PartitionId, key: EdgeKey, indexes: seq<IndexItem>) {
    && ik.part == part && ik.src == key.src && ik.rank == key.rank && ik.dst == key.dst
    && exists i :: 0 <= i < |indexes| && indexes[i].edgeType == key.edgeType && indexes[i].indexId == ik.indexId
  }

  // ---------------------------------------------------------------------
  // One edge
  // ---------------------------------------------------------------------

  /** What the obsolete-record lookup of one edge yields. */
  datatype Obsolete = NoRecord | Decoded(row: Row) | Undecodable

  /** The lookup of the stored record an edge replaces. It is only made when
      the edge type has an index and existing entries are not ignored; an
      empty or missing stored value counts as no record. */
  function ObsoleteLookup(env: Env, part: PartitionId, key: EdgeKey): Obsolete {
    if env.ignoreExistedIndex || !HasIndex(env.indexes, key.edgeType) then NoRecord
    else
      var val := FindObsoleteIndex(env, part, key);
      if val == [] then NoRecord
      else match env.schema.decode(env.spaceId, key.edgeType, val)
        case None => Undecodable
        case Some(row) => Decoded(row)
  }

  /** The operations one index contributes for one edge: the removal of the
      entry computed from the old row, then the insertion of the entry
      computed from the new row, each only when its key can be built. */
  function IndexStep(ignoreExistedIndex: bool, schema: Schema, part: PartitionId, key: EdgeKey, oldRow: Option<Row>, newRow: Row, index: IndexItem): seq<Op> {
    if index.edgeType != key.edgeType then []
    else
      var removal :=
        if !ignoreExistedIndex && oldRow.Some? then
          match IndexKeyFor(schema, part, oldRow.value, key, index)
          case None => []
          case Some(oi) => [Remove(IndexEntry(oi))]
        else [];
      var insertion :=
        match IndexKeyFor(schema, part, newRow, key, index)
        case None => []
        case Some(ni) => [Put(IndexEntry(ni), [])];
      removal + insertion
  }

  /** The index operations of one edge, index by index in the order of
      `indexes`. */
  function IndexOps(ignoreExistedIndex: bool, schema: Schema, part: PartitionId, key: EdgeKey, oldRow: Option<Row>, newRow: Row, indexes: seq<IndexItem>): seq<Op> {
    if indexes == [] then []
    else
      IndexOps(ignoreExistedIndex, schema, part, key, oldRow, newRow, indexes[..|indexes| - 1])
      + IndexStep(ignoreExistedIndex, schema, part, key, oldRow, newRow, indexes[|indexes| - 1])
  }

  /** The row of the obsolete record, when there is one and it decoded. */
  function OldRow(o: Obsolete): Option<Row> {
    if o.Decoded? then Some(o.row) else None
  }

  /** The operations of one edge, or `None` when a row that its indexes
      need does not decode. */
  function EdgeOps(env: Env, part: PartitionId, key: EdgeKey, props: Bytes): Option<seq<Op>> {
    var obsolete := ObsoleteLookup(env, part, key);
    if obsolete.Undecodable? then None
    else if !HasIndex(env.indexes, key.edgeType) then Some([Put(Primary(key), props)])
    else match env.schema.decode(env.spaceId, key.edgeType, props)
      case None => None
      case Some(newRow) => Some(IndexOps(env.ignoreExistedIndex, env.schema, part, key, OldRow(obsolete), newRow, env.indexes) + [Put(Primary(key), props)])
  }

  // ---------------------------------------------------------------------
  // One partition
  // ---------------------------------------------------------------------

  /** The partition's edges keyed by edge key, a later edge with the same
      key replacing an earlier one. */
  function Dedup(part: PartitionId, version: EdgeVersion, edges: seq<Edge>): (m: map<EdgeKey, Bytes>)
    ensures forall k :: k in m ==> k.part == part && k.version == version
  {
    if edges == [] then map[]
    else
      var last := edges[|edges| - 1];
      Dedup(part, version, edges[..|edges| - 1])[KeyOf(part, version, last) := last.props]
  }

  /** The batch for the keys `ks` of `m`, in the order of `ks`: the
      concatenation of their edges' operations, or `None` as soon as one
      edge gives up. */
  function BatchOf(env: Env, part: PartitionId, m: map<EdgeKey, Bytes>, ks: seq<EdgeKey>): Option<seq<Op>>
    requires forall k :: k in ks ==> k in m
  {
    if ks == [] then Some([])
    else
      var last := ks[|ks| - 1];
      match BatchOf(env, part, m, ks[..|ks| - 1])
      case None => None
      case Some(prev) =>
        match EdgeOps(env, part, last, m[last])
        case None => None
        case Some(ops) => Some(prev + ops)
  }

  /** What the indexed path builds for one partition of the request. */
  ghost function AddEdgesSpec(env: Env, version: EdgeVersion, part: PartitionId, edges: seq<Edge>): Option<seq<Op>> {
    var m := Dedup(part, version, edges);
    BatchOf(env, part, m, Ordered(m.Keys))
  }

  /** Once the batch has given up, visiting more edges does not revive it. */
  lemma {:induction false} BatchAbortSticks(env: Env, part: PartitionId, m: map<EdgeKey, Bytes>, ks: seq<EdgeKey>, more: seq<EdgeKey>)
    requires forall k :: k in ks + more ==> k in m
    requires BatchOf(env, part, m, ks).None?
    ensures BatchOf(env, part, m, ks + more).None?
    decreases |more|
  {
    if more != [] {
      var init := more[..|more| - 1];
      assert (ks + more)[..|ks + more| - 1] == ks + init;
      BatchAbortSticks(env, part, m, ks, init);
    } else {
      assert ks + more == ks;
    }
  }

  /**
   * The batch builder of one partition. Edges are first collected into a
   * map keyed by edge key; the map is then visited in key order and each
   * edge's operations are appended to the batch. A row that does not decode
   * while the edge type has an index ends the build with `None`.
   */
  method AddEdges(env: Env, version: EdgeVersion, part: PartitionId, edges: seq<Edge>) returns (r: Option<seq<Op>>)
    ensures r == AddEdgesSpec(env, version, part, edges)
  {
    var newEdges: map<EdgeKey, Bytes> := map[];
    for i := 0 to |edges|
      invariant newEdges == Dedup(part, version, edges[..i])
    {
      var e := edges[i];
      var key := EdgeKey(part, e.src, e.edgeType, e.ranking, e.dst, version);
      newEdges := newEdges[key := e.props];
      assert edges[..i + 1][..i] == edges[..i];
    }
    assert edges[..|edges|] == edges;

    var ops: seq<Op> := [];
    var remaining := newEdges.Keys;
    ghost var visited: seq<EdgeKey> := [];
    while remaining != {}
      invariant remaining <= newEdges.Keys
      invariant forall k :: k in visited ==> k in newEdges
      invariant Ordered(newEdges.Keys) == visited + Ordered(remaining)
      invariant BatchOf(env, part, newEdges, visited) == Some(ops)
      decreases |remaining|
    {
      LeastExists(remaining);
      var key :| key in remaining && IsLeast(key, remaining);
      LeastUnique(key, Least(remaining), remaining);
      VisitStep(newEdges.Keys, visited, key, remaining);
      BatchStep(env, part, newEdges, visited, key);
      var props := newEdges[key];
      var extended := AppendEdgeOps(env, part, key, props, ops);
      if extended.None? {
        AbortHere(env, part, newEdges, visited, key, remaining);
        return None;
      }
      ops := extended.value;

      visited := visited + [key];
      remaining := remaining - {key};
    }
    assert visited + Ordered(remaining) == visited;
    r := Some(ops);
  }

  /** Taking one more index into account appends its step. */
  lemma IndexOpsStep(env: Env, part: PartitionId, key: EdgeKey, oldRow: Option<Row>, newRow: Row, indexes: seq<IndexItem>, j: nat)
    requires j < |indexes|
    ensures IndexOps(env.ignoreExistedIndex, env.schema, part, key, oldRow, newRow, indexes[..j + 1]) ==
              IndexOps(env.ignoreExistedIndex, env.schema, part, key, oldRow, newRow, indexes[..j]) + IndexStep(env.ignoreExistedIndex, env.schema, part, key, oldRow, newRow, indexes[j])
  {
    assert indexes[..j + 1][..j] == indexes[..j];
  }

  /** Appending one key to the visited ones extends the batch by that
      edge's operations, unless either has given up. */
  lemma BatchStep(env: Env, part: PartitionId, m: map<EdgeKey, Bytes>, visited: seq<EdgeKey>, key: EdgeKey)
    requires key in m
    requires forall k :: k in visited ==> k in m
    ensures forall k :: k in visited + [key] ==> k in m
    ensures BatchOf(env, part, m, visited + [key]) ==
              if BatchOf(env, part, m, visited).None? || EdgeOps(env, part, key, m[key]).None? then None
              else Some(BatchOf(env, part, m, visited).value + EdgeOps(env, part, key, m[key]).value)
  {
    var ks := visited + [key];
    assert ks[..|ks| - 1] == visited;
  }

  /**
   * One step of the builder: append the operations of the edge `key` with
   * properties `props` to `batch`. The rows that the edge type's indexes
   * need are decoded first; `None` when one of them does not decode.
   */
  method AppendEdgeOps(env: Env, part: PartitionId, key: EdgeKey, props: Bytes, batch: seq<Op>) returns (r: Option<seq<Op>>)
    ensures r.None? <==> EdgeOps(env, part, key, props).None?
    ensures r.Some? ==> r.value == batch + EdgeOps(env, part, key, props).value
  {
    var edgeType := key.edgeType;
    var reader: Option<Row> := None;
    var nReader: Option<Row> := None;
    var hasIndex := HasIndex(env.indexes, edgeType);
    if !env.ignoreExistedIndex && hasIndex {
      var val := FindObsoleteIndex(env, part, key);
      if val != [] {
        reader := env.schema.decode(env.spaceId, edgeType, val);
        if reader.None? {
          return None;
        }
      }
    }
    if hasIndex {
      nReader := env.schema.decode(env.spaceId, edgeType, props);
      if nReader.None? {
        return None;
      }
    }
    assert reader == OldRow(ObsoleteLookup(env, part, key));

    var ops := AppendIndexOps(env, part, key, reader, nReader, batch);
    ops := ops + [Put(Primary(key), props)];
    if hasIndex {
      EdgeOpsDecoded(env, part, key, props, reader, nReader.value);
    }
    r := Some(ops);
  }

  /**
   * The loop over the space's indexes for one edge: for each index of the
   * edge's type, append the removal of the old entry (when there is an old
   * row and existing entries are not ignored) and the insertion of the new
   * entry, each when its key can be built. `newRow` is absent only when no
   * index belongs to the edge type, and then nothing is appended.
   */
  method AppendIndexOps(env: Env, part: PartitionId, key: EdgeKey, oldRow: Option<Row>, newRow: Option<Row>, batch: seq<Op>)
    returns (ops: seq<Op>)
    requires newRow.None? ==> !HasIndex(env.indexes, key.edgeType)
    ensures newRow.Some? ==> ops == batch + IndexOps(env.ignoreExistedIndex, env.schema, part, key, oldRow, newRow.value, env.indexes)
    ensures newRow.None? ==> ops == batch
  {
    var edgeType := key.edgeType;
    ops := batch;
    for j := 0 to |env.indexes|
      invariant newRow.Some? ==> ops == batch + IndexOps(env.ignoreExistedIndex, env.schema, part, key, oldRow, newRow.value, env.indexes[..j])
      invariant newRow.None? ==> ops == batch
    {
      var index := env.indexes[j];
      ghost var prev := ops;
      if edgeType == index.edgeType {
        assert HasIndex(env.indexes, edgeType);
        ghost var step: seq<Op> := [];
        if !env.ignoreExistedIndex {
          if oldRow.Some? {
            var oi := IndexKeyFor(env.schema, part, oldRow.value, key, index);
            if oi.Some? {
              ops := ops + [Remove(IndexEntry(oi.value))];
              step := [Remove(IndexEntry(oi.value))];
            }
          }
        }
        var ni := IndexKeyFor(env.schema, part, newRow.value, key, index);
        if ni.Some? {
          ops := ops + [Put(IndexEntry(ni.value), [])];
          step := step + [Put(IndexEntry(ni.value), [])];
        }
        assert step == IndexStep(env.ignoreExistedIndex, env.schema, part, key, oldRow, newRow.value, index);
        assert ops == prev + step;
      }
      if newRow.Some? {
        IndexOpsStep(env, part, key, oldRow, newRow.value, env.indexes, j);
        AppendAssoc(batch, IndexOps(env.ignoreExistedIndex, env.schema, part, key, oldRow, newRow.value, env.indexes[..j]), IndexStep(env.ignoreExistedIndex, env.schema, part, key, oldRow, newRow.value, index));
      }
    }
    assert env.indexes[..|env.indexes|] == env.indexes;
  }

  lemma AppendAssoc(a: seq<Op>, b: seq<Op>, c: seq<Op>)
    ensures a + b + c == a + (b + c)
  {
  }

  /** The operations of an edge whose type has an index and whose rows
      decode. */
  lemma EdgeOpsDecoded(env: Env, part: PartitionId, key: EdgeKey, props: Bytes, oldRow: Option<Row>, newRow: Row)
    requires HasIndex(env.indexes, key.edgeType)
    requires !ObsoleteLookup(env, part, key).Undecodable?
    requires oldRow == OldRow(ObsoleteLookup(env, part, key))
    requires env.schema.decode(env.spaceId, key.edgeType, props) == Some(newRow)
    ensures EdgeOps(env, part, key, props) == Some(IndexOps(env.ignoreExistedIndex, env.schema, part, key, oldRow, newRow, env.indexes) + [Put(Primary(key), props)])
  {
  }

  /** The step that ends the build early: the edge `key`, first of the
      remaining ones, gives up, so the whole partition's batch is `None`. */
  lemma AbortHere(env: Env, part: PartitionId, m: map<EdgeKey, Bytes>, visited: seq<EdgeKey>, key: EdgeKey, remaining: set<EdgeKey>)
    requires key in m && remaining <= m.Keys && remaining != {} && key == Least(remaining)
    requires forall k :: k in visited ==> k in m
    requires Ordered(m.Keys) == visited + Ordered(remaining)
    requires BatchOf(env, part, m, visited).Some?
    requires EdgeOps(env, part, key, m[key]).None?
    ensures BatchOf(env, part, m, Ordered(m.Keys)).None?
  {
    VisitStep(m.Keys, visited, key, remaining);
    BatchStep(env, part, m, visited, key);
    BatchAbortSticks(env, part, m, visited + [key], Ordered(remaining - {key}));
  }
}
