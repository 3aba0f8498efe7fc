/**
 * Identifiers, keys and the order in which keys are visited.
 *
 * The byte layout of the storage keys (fixed-width fields concatenated
 * without delimiters) is not part of this model: a key is the datatype of
 * its fields, so building a key and reading a field back round-trips by
 * construction. The byte-string order that a `std::map` keyed by encoded
 * keys uses stands here as `KeyLess`, a lexicographic order on the fields.
 * What is proved about the batch only uses that it is a strict total order;
 * the order it gives between different edges is a stand-in. Only
 * `VersionsOrderKeys` looks at the fields: it stands for the big-endian
 * encoding of the version, under which the keys of one edge sort by
 * version as numbers when versions are non-negative.
 */
module Keys {

  newtype byte = x: int | 0 <= x < 256

  /** Raw bytes: property blobs, stored values, encoded index field values. */
  type Bytes = seq<byte>

  // The integer widths of the identifiers do not matter: nothing below does
  // arithmetic on them.
  type SpaceId = int
  type PartitionId = int
  type VertexId = int
  type EdgeType = int
  type EdgeRanking = int
  type IndexId = int
  type EdgeVersion = int

  /** One edge of a request: its key fields and its encoded properties. */
  datatype Edge = Edge(src: VertexId, edgeType: EdgeType, ranking: EdgeRanking, dst: VertexId, props: Bytes)

  /** The primary key of one version of an edge. */
  datatype EdgeKey = EdgeKey(
    part: PartitionId, src: VertexId, edgeType: EdgeType, rank: EdgeRanking, dst: VertexId,
    version: EdgeVersion)

  /** The identity of an edge: its key without the version. All stored
      versions of one edge share it, so it is what a first-match scan uses. */
  datatype EdgePrefix = EdgePrefix(
    part: PartitionId, src: VertexId, edgeType: EdgeType, rank: EdgeRanking, dst: VertexId)

  /** An entry of an edge index. It carries no edge type and no version. */
  datatype IndexKey = IndexKey(
    part: PartitionId, indexId: IndexId, src: VertexId, rank: EdgeRanking, dst: VertexId,
    values: Bytes)

  /** The key under which one edge of a request is written, at the version
      shared by the whole request. */
  function KeyOf(part: PartitionId, version: EdgeVersion, e: Edge): EdgeKey {
    EdgeKey(part, e.src, e.edgeType, e.ranking, e.dst, version)
  }

  /** The identity prefix used to find the newest stored version of the
      edge that `key` names, in partition `part`. */
  function PrefixOf(part: PartitionId, key: EdgeKey): EdgePrefix {
    EdgePrefix(part, key.src, key.edgeType, key.rank, key.dst)
  }

  /** The fields of an edge key in the order they are laid out. */
  function Fields(k: EdgeKey): seq<int> {
    [k.part, k.src, k.edgeType, k.rank, k.dst, k.version]
  }

  /** Lexicographic order on equally long field sequences: the first field
      that differs decides. */
  predicate LexLess(a: seq<int>, b: seq<int>)
    requires |a| == |b|
  {
    a != [] && (a[0] < b[0] || (a[0] == b[0] && LexLess(a[1..], b[1..])))
  }

  lemma {:induction false} LexLessIsStrictTotalOrder(a: seq<int>, b: seq<int>, c: seq<int>)
    requires |a| == |b| == |c|
    ensures !LexLess(a, a)
    ensures LexLess(a, b) ==> !LexLess(b, a)
    ensures LexLess(a, b) && LexLess(b, c) ==> LexLess(a, c)
    ensures a == b || LexLess(a, b) || LexLess(b, a)
  {
    if a != [] {
      LexLessIsStrictTotalOrder(a[1..], b[1..], c[1..]);
      if a[1..] == b[1..] && a[0] == b[0] {
        assert a == [a[0]] + a[1..] && b == [b[0]] + b[1..];
      }
    }
  }

  /** The order in which a map keyed by edge keys is visited. */
  predicate KeyLess(a: EdgeKey, b: EdgeKey) {
    LexLess(Fields(a), Fields(b))
  }

  lemma KeyLessIsStrictTotalOrder(a: EdgeKey, b: EdgeKey, c: EdgeKey)
    ensures !KeyLess(a, a)
    ensures KeyLess(a, b) ==> !KeyLess(b, a)
    ensures KeyLess(a, b) && KeyLess(b, c) ==> KeyLess(a, c)
    ensures a == b || KeyLess(a, b) || KeyLess(b, a)
  {
    LexLessIsStrictTotalOrder(Fields(a), Fields(b), Fields(c));
    if Fields(a) == Fields(b) {
      assert a == b;
    }
  }

  /** Two keys of the same edge are ordered by their versions. */
  lemma VersionsOrderKeys(a: EdgeKey, b: EdgeKey)
    requires a.part == b.part && a.src == b.src && a.edgeType == b.edgeType && a.rank == b.rank && a.dst == b.dst
    requires 0 <= a.version < b.version
    ensures KeyLess(a, b)
  {
    var fa, fb := Fields(a), Fields(b);
    assert LexLess(fa[5..], fb[5..]);
    assert LexLess(fa[4..], fb[4..]) by { assert fa[4..][1..] == fa[5..] && fb[4..][1..] == fb[5..]; }
    assert LexLess(fa[3..], fb[3..]) by { assert fa[3..][1..] == fa[4..] && fb[3..][1..] == fb[4..]; }
    assert LexLess(fa[2..], fb[2..]) by { assert fa[2..][1..] == fa[3..] && fb[2..][1..] == fb[3..]; }
    assert LexLess(fa[1..], fb[1..]) by { assert fa[1..][1..] == fa[2..] && fb[1..][1..] == fb[2..]; }
  }

  /** `k` is the first key of `s` in map order. */
  predicate IsLeast(k: EdgeKey, s: set<EdgeKey>) {
    k in s && forall k' :: k' in s && k' != k ==> KeyLess(k, k')
  }

  lemma {:induction false} LeastExists(s: set<EdgeKey>)
    requires s != {}
    ensures exists k :: IsLeast(k, s)
    decreases |s|
  {
    var x :| x in s;
    if s != {x} {
      var rest := s - {x};
      LeastExists(rest);
      var m :| IsLeast(m, rest);
      KeyLessIsStrictTotalOrder(x, m, x);
      if KeyLess(x, m) {
        forall k' | k' in s && k' != x ensures KeyLess(x, k') {
          if k' != m {
            KeyLessIsStrictTotalOrder(x, m, k');
          }
        }
        assert IsLeast(x, s);
      } else {
        assert KeyLess(m, x);
        assert IsLeast(m, s);
      }
    } else {
      assert IsLeast(x, s);
    }
  }

  lemma LeastUnique(a: EdgeKey, b: EdgeKey, s: set<EdgeKey>)
    requires IsLeast(a, s) && IsLeast(b, s)
    ensures a == b
  {
    if a != b {
      KeyLessIsStrictTotalOrder(a, b, a);
    }
  }

  /** The first key of a non-empty set of keys. */
  ghost function Least(s: set<EdgeKey>): (k: EdgeKey)
    requires s != {}
    ensures IsLeast(k, s)
  {
    LeastExists(s);
    var k :| IsLeast(k, s);
    k
  }

  /** The keys of `s` in the order a `std::map` visits them: every key of
      `s` once (see `OrderedAscending` for the order). */
  ghost function Ordered(s: set<EdgeKey>): (r: seq<EdgeKey>)
    ensures |r| == |s|
    ensures forall k :: k in r <==> k in s
    decreases |s|
  {
    if s == {} then []
    else
      var k := Least(s);
      [k] + Ordered(s - {k})
  }

  /** The visit is strictly ascending, so no key is visited twice. */
  lemma {:induction false} OrderedAscending(s: set<EdgeKey>)
    ensures forall i, j :: 0 <= i < j < |Ordered(s)| ==> KeyLess(Ordered(s)[i], Ordered(s)[j])
    decreases |s|
  {
    if s != {} {
      var k := Least(s);
      var rest := Ordered(s - {k});
      OrderedAscending(s - {k});
      assert Ordered(s) == [k] + rest;
      forall i, j | 0 <= i < j < |Ordered(s)| ensures KeyLess(Ordered(s)[i], Ordered(s)[j]) {
        if i > 0 {
          assert Ordered(s)[i] == rest[i - 1] && Ordered(s)[j] == rest[j - 1];
        } else {
          assert Ordered(s)[j] == rest[j - 1];
          assert rest[j - 1] in s - {k};
        }
      }
    }
  }

  /** Visiting a set in order starts with its first key. */
  lemma OrderedStep(s: set<EdgeKey>, key: EdgeKey)
    requires s != {} && key == Least(s)
    ensures Ordered(s) == [key] + Ordered(s - {key})
  {
  }

  /** Every key visited in order is a key of a superset of the visited set. */
  lemma OrderedWithin(s: set<EdgeKey>, all: set<EdgeKey>)
    requires s <= all
    ensures forall k :: k in Ordered(s) ==> k in all
  {
  }

  lemma ShiftConcat(visited: seq<EdgeKey>, key: EdgeKey, rest: seq<EdgeKey>)
    ensures visited + ([key] + rest) == (visited + [key]) + rest
  {
  }

  /** One step of an in-order visit of `all`: the first of the keys not yet
      visited moves to the visited ones. */
  lemma VisitStep(all: set<EdgeKey>, visited: seq<EdgeKey>, key: EdgeKey, remaining: set<EdgeKey>)
    requires remaining <= all && remaining != {} && key == Least(remaining)
    requires Ordered(all) == visited + Ordered(remaining)
    ensures Ordered(all) == (visited + [key]) + Ordered(remaining - {key})
    ensures forall k :: k in Ordered(remaining - {key}) ==> k in all
  {
    OrderedStep(remaining, key);
    ShiftConcat(visited, key, Ordered(remaining - {key}));
    OrderedWithin(remaining - {key}, all);
  }
}
