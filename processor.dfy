/**
 * The request handler: it records the request's space and flags, fetches
 * the space's edge indexes, and submits one write per partition. Without
 * indexes each partition's edges are written as they come, in one plain
 * put; with indexes each partition is submitted as an atomic operation
 * whose batch is built by `EdgeBatch.AddEdges`.
 *
 * The submissions are recorded, in order, in the processor's `calls`;
 * what the store does with them, and the completion callbacks, are not
 * part of this model.
 */
module Processor {
  import opened Options
  import opened Keys
  import opened EdgeBatch

  /** The largest signed 64-bit integer. */
  const INT64_MAX: int := 0x7FFF_FFFF_FFFF_FFFF

  /** An add-edges request: the space, the ignore-existed-index flag, and
      each partition's edges in request order. */
  datatype Request = Request(spaceId: SpaceId, ignoreExistedIndex: bool, parts: map<PartitionId, seq<Edge>>)

  /** One key/value pair of a plain put. */
  datatype KV = KV(key: EdgeKey, value: Bytes)

  /** A write submitted for one partition of a space: a plain put of
      key/value pairs, or an atomic operation whose batch is `None` when the
      builder gave up. */
  datatype Call =
    | DoPut(space: SpaceId, part: PartitionId, data: seq<KV>)
    | AtomicOp(space: SpaceId, part: PartitionId, batch: Option<seq<Op>>)

  /** The version shared by every edge of a request: the complement of the
      current time in microseconds when multi-versioning is on, so that a
      newer write gets a smaller version, and 0 otherwise. */
  function RequestVersion(multiVersions: bool, nowMicros: int): (v: EdgeVersion)
    ensures !multiVersions ==> v == 0
    ensures multiVersions && 0 <= nowMicros <= INT64_MAX ==> 0 <= v <= INT64_MAX
  {
    if multiVersions then INT64_MAX - nowMicros else 0
  }

  /** With multi-versioning on, a later request gets a strictly smaller
      version, so its key sorts before the keys of earlier ones. */
  lemma LaterRequestSortsFirst(part: PartitionId, e: Edge, now1: int, now2: int)
    requires 0 <= now1 < now2 <= INT64_MAX
    ensures 0 <= RequestVersion(true, now2) < RequestVersion(true, now1)
    ensures KeyLess(KeyOf(part, RequestVersion(true, now2), e), KeyOf(part, RequestVersion(true, now1), e))
  {
    VersionsOrderKeys(KeyOf(part, RequestVersion(true, now2), e), KeyOf(part, RequestVersion(true, now1), e));
  }

  /** The pairs of the plain put of one partition: one per edge, in request
      order, duplicates kept, each under the request's version. */
  function FastPathData(part: PartitionId, version: EdgeVersion, edges: seq<Edge>): (data: seq<KV>)
    ensures |data| == |edges|
    ensures forall i :: 0 <= i < |edges| ==> data[i] == KV(KeyOf(part, version, edges[i]), edges[i].props)
  {
    if edges == [] then []
    else FastPathData(part, version, edges[..|edges| - 1]) + [KV(KeyOf(part, version, edges[|edges| - 1]), edges[|edges| - 1].props)]
  }

  /** The loop of the fast path that builds one partition's pairs. */
  method CollectFastPathData(part: PartitionId, version: EdgeVersion, edges: seq<Edge>) returns (data: seq<KV>)
    ensures data == FastPathData(part, version, edges)
  {
    data := [];
    for i := 0 to |edges|
      invariant |data| == i
      invariant forall j :: 0 <= j < i ==> data[j] == KV(KeyOf(part, version, edges[j]), edges[j].props)
    {
      var edge := edges[i];
      var key := EdgeKey(part, edge.src, edge.edgeType, edge.ranking, edge.dst, version);
      data := data + [KV(key, edge.props)];
    }
  }

  /** What is submitted for one partition: a plain put when the space has no
      edge index, otherwise an atomic operation with the partition's batch. */
  ghost function CallFor(env: Env, version: EdgeVersion, part: PartitionId, edges: seq<Edge>): Call {
    if env.indexes == [] then DoPut(env.spaceId, part, FastPathData(part, version, edges))
    else AtomicOp(env.spaceId, part, AddEdgesSpec(env, version, part, edges))
  }

  /** `newCalls` are the submissions for the partitions `done` of `parts`:
      exactly one per partition, each the one `CallFor` prescribes. */
  ghost predicate Submitted(newCalls: seq<Call>, done: set<PartitionId>, env: Env, version: EdgeVersion, parts: map<PartitionId, seq<Edge>>) {
    && (forall i :: 0 <= i < |newCalls| ==>
          && newCalls[i].part in done && newCalls[i].part in parts
          && newCalls[i] == CallFor(env, version, newCalls[i].part, parts[newCalls[i].part]))
    && (forall p :: p in done ==> exists i :: 0 <= i < |newCalls| && newCalls[i].part == p)
    && (forall i, j :: 0 <= i < j < |newCalls| ==> newCalls[i].part != newCalls[j].part)
  }

  /** The submission for one partition: the fast path's pairs when the
      space has no edge index, otherwise the batch of the indexed path. */
  method Submission(env: Env, version: EdgeVersion, part: PartitionId, edges: seq<Edge>) returns (call: Call)
    ensures call == CallFor(env, version, part, edges)
  {
    if env.indexes == [] {
      var data := CollectFastPathData(part, version, edges);
      call := DoPut(env.spaceId, part, data);
    } else {
      var batch := AddEdges(env, version, part, edges);
      call := AtomicOp(env.spaceId, part, batch);
    }
  }

  /** `order` lists every partition of `s` exactly once. */
  ghost predicate Enumerates(order: seq<PartitionId>, s: set<PartitionId>) {
    && (forall p :: p in order <==> p in s)
    && (forall i, j :: 0 <= i < j < |order| ==> order[i] != order[j])
  }

  /** A list of the distinct partitions of `s` is as long as `s` is large. */
  lemma {:induction false} EnumerationLength(order: seq<PartitionId>, s: set<PartitionId>)
    requires Enumerates(order, s)
    ensures |order| == |s|
    decreases |order|
  {
    if order != [] {
      var last := order[|order| - 1];
      var init := order[..|order| - 1];
      assert order == init + [last];
      assert forall p :: p in init <==> p in s - {last};
      EnumerationLength(init, s - {last});
    } else {
      assert forall p :: p !in s;
      assert s == {};
    }
  }

  /** The order in which the entries of a request's partition map are
      visited. It is unspecified: any listing of the partitions, each
      exactly once. */
  method PartitionOrder(parts: map<PartitionId, seq<Edge>>) returns (order: seq<PartitionId>)
    ensures Enumerates(order, parts.Keys)
  {
    order := [];
    var remaining := parts;
    while remaining != map[]
      invariant remaining.Keys <= parts.Keys
      invariant forall p :: p in order <==> p in parts && p !in remaining
      invariant forall i, j :: 0 <= i < j < |order| ==> order[i] != order[j]
      decreases |remaining|
    {
      var entry :| entry in remaining.Items;
      var p := entry.0;
      assert p in remaining;
      order := order + [p];
      remaining := remaining - {p};
    }
  }

  /** The loop over a request's partitions, in the order `order`: one
      submission per partition. */
  method Submissions(env: Env, version: EdgeVersion, parts: map<PartitionId, seq<Edge>>, order: seq<PartitionId>)
    returns (newCalls: seq<Call>)
    requires forall p :: p in order ==> p in parts
    ensures |newCalls| == |order|
    ensures forall i :: 0 <= i < |order| ==> newCalls[i] == CallFor(env, version, order[i], parts[order[i]])
  {
    ghost var expected := seq(|order|, j requires 0 <= j < |order| => CallFor(env, version, order[j], parts[order[j]]));
    newCalls := [];
    for i := 0 to |order|
      invariant |newCalls| == i
      invariant forall j :: 0 <= j < i ==> newCalls[j] == expected[j]
    {
      var p := order[i];
      var call := Submission(env, version, p, parts[p]);
      PrefixStep(newCalls, call, expected, i);
      newCalls := newCalls + [call];
    }
  }

  /** One step of a loop that builds a prefix of `expected`: appending the
      next expected element gives a prefix one longer. */
  lemma PrefixStep(prefix: seq<Call>, next: Call, expected: seq<Call>, i: nat)
    requires i < |expected| && |prefix| == i
    requires forall j :: 0 <= j < i ==> prefix[j] == expected[j]
    requires next == expected[i]
    ensures forall j :: 0 <= j < i + 1 ==> (prefix + [next])[j] == expected[j]
  {
    forall j | 0 <= j < i + 1 ensures (prefix + [next])[j] == expected[j] {
      if j < i {
        assert (prefix + [next])[j] == prefix[j];
      }
    }
  }

  /** Submissions made in the order of a listing of the partitions: exactly
      one per partition, as many as there are partitions. */
  lemma SubmittedInOrder(newCalls: seq<Call>, order: seq<PartitionId>, env: Env, version: EdgeVersion, parts: map<PartitionId, seq<Edge>>)
    requires Enumerates(order, parts.Keys)
    requires |newCalls| == |order|
    requires forall i :: 0 <= i < |order| ==> newCalls[i] == CallFor(env, version, order[i], parts[order[i]])
    ensures Submitted(newCalls, parts.Keys, env, version, parts)
    ensures |newCalls| == |parts|
  {
    EnumerationLength(order, parts.Keys);
    forall i | 0 <= i < |newCalls| ensures newCalls[i].part == order[i] {
    }
    forall p | p in parts.Keys ensures exists i :: 0 <= i < |newCalls| && newCalls[i].part == p {
      var i :| 0 <= i < |order| && order[i] == p;
      assert newCalls[i].part == p;
    }
  }

  /** The visit of a request's partitions, in an unspecified order, with
      one submission each. */
  method SubmitAll(env: Env, version: EdgeVersion, parts: map<PartitionId, seq<Edge>>) returns (newCalls: seq<Call>)
    ensures Submitted(newCalls, parts.Keys, env, version, parts)
    ensures |newCalls| == |parts|
  {
    var order := PartitionOrder(parts);
    newCalls := Submissions(env, version, parts, order);
    SubmittedInOrder(newCalls, order, env, version, parts);
  }

  /** Appending the submissions of one request to the log keeps the earlier
      entries and puts the request's submissions, one per partition, right
      after them. */
  lemma AppendSubmissions(oldCalls: seq<Call>, newCalls: seq<Call>, env: Env, version: EdgeVersion, parts: map<PartitionId, seq<Edge>>)
    requires Submitted(newCalls, parts.Keys, env, version, parts)
    requires |newCalls| == |parts|
    ensures |oldCalls + newCalls| == |oldCalls| + |parts|
    ensures (oldCalls + newCalls)[..|oldCalls|] == oldCalls
    ensures Submitted((oldCalls + newCalls)[|oldCalls|..], parts.Keys, env, version, parts)
  {
    assert (oldCalls + newCalls)[|oldCalls|..] == newCalls;
  }

  class AddEdgesProcessor {
    /** The index manager's lookup of a space's edge indexes; `None` is a
        failed lookup. */
    const indexMan: SpaceId -> Option<seq<IndexItem>>
    /** The store that obsolete records are read from. */
    const store: Store
    /** The schema layer that decodes rows and collects index fields. */
    const schema: Schema

    var spaceId: SpaceId
    var callingNum: int
    var indexes: seq<IndexItem>
    var ignoreExistedIndex: bool
    /** The writes submitted so far, in submission order. */
    var calls: seq<Call>

    constructor(indexMan: SpaceId -> Option<seq<IndexItem>>, store: Store, schema: Schema)
      ensures this.indexMan == indexMan && this.store == store && this.schema == schema
      ensures indexes == [] && calls == [] && callingNum == 0 && !ignoreExistedIndex
    {
      this.indexMan := indexMan;
      this.store := store;
      this.schema := schema;
      spaceId := 0;
      callingNum := 0;
      indexes := [];
      ignoreExistedIndex := false;
      calls := [];
    }

    /** The state the batch builder reads. */
    function CurrentEnv(): Env
      reads this
    {
      Env(spaceId, indexes, ignoreExistedIndex, store, schema)
    }

    /**
     * Handles one request. The fields are set first; the index list is
     * replaced only when the lookup succeeds. Then each partition gets
     * exactly one submission, built from the fields as they now stand.
     */
    method Process(req: Request, multiVersions: bool, nowMicros: int)
      modifies this
      ensures spaceId == req.spaceId
      ensures callingNum == |req.parts|
      ensures indexes == if indexMan(req.spaceId).Some? then indexMan(req.spaceId).value else old(indexes)
      ensures ignoreExistedIndex == req.ignoreExistedIndex
      ensures |calls| == |old(calls)| + |req.parts| && calls[..|old(calls)|] == old(calls)
      ensures Submitted(calls[|old(calls)|..], req.parts.Keys, CurrentEnv(), RequestVersion(multiVersions, nowMicros), req.parts)
    {
      spaceId := req.spaceId;
      var version := RequestVersion(multiVersions, nowMicros);
      callingNum := |req.parts|;
      var iRet := indexMan(spaceId);
      if iRet.Some? {
        indexes := iRet.value;
      }
      ignoreExistedIndex := req.ignoreExistedIndex;

      var env := CurrentEnv();
      var newCalls := SubmitAll(env, version, req.parts);
      AppendSubmissions(calls, newCalls, env, version, req.parts);
      calls := calls + newCalls;
    }
  }
}
