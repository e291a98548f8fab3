/**
 The identity-mapping state of `VectorStore`: dense hnswlib labels 0, 1, 2, ...
 assigned to caller-chosen 64-bit user ids, kept in a forward map and a reverse
 vector that is over-allocated ahead of the label counter.
 */
module IdentityMap {
  import opened Bounded

  /** Growth step of the reverse vector (`LABEL_RESERVE_INCREMENT_SIZE`). */
  const LABEL_RESERVE_INCREMENT_SIZE: nat := 1000

  /** Constructor defaults for capacity and the HNSW tuning parameters. */
  const DEFAULT_MAX_ELEMENTS: I32 := 10000
  const DEFAULT_M: I32 := 16
  const DEFAULT_EF_CONSTRUCTION: I32 := 200
  const DEFAULT_EF: I32 := 10

  /** Everything of a `VectorStore` except the opaque hnswlib index and its space. */
  datatype VectorStore = VectorStore(
    dim: I32,
    maxElements: I32,
    m: I32,
    efConstruction: I32,
    ef: I32,
    allowReplaceDeleted: bool,
    idToLabel: map<U64, U64>,
    labelToId: seq<U64>,
    nextLabel: U64,
    reservedSize: U64)

  /** The identity invariant: every mapped user id owns a live label whose
      reverse slot names it back, there are exactly `nextLabel` mapped ids, and
      the reverse vector is never shorter than the counter. */
  predicate Valid(s: VectorStore) {
    && s.nextLabel <= |s.labelToId|
    && |s.idToLabel| == s.nextLabel
    && forall u :: u in s.idToLabel ==>
         s.idToLabel[u] < s.nextLabel && s.labelToId[s.idToLabel[u]] == u
  }

  /** Dimension, capacity, tuning parameters and reserve size agree. */
  predicate SameConfig(a: VectorStore, b: VectorStore) {
    && a.dim == b.dim
    && a.maxElements == b.maxElements
    && a.m == b.m
    && a.efConstruction == b.efConstruction
    && a.ef == b.ef
    && a.allowReplaceDeleted == b.allowReplaceDeleted
    && a.reservedSize == b.reservedSize
  }

  /** Reverse slots below `n` agree. */
  predicate SamePrefix(a: seq<U64>, b: seq<U64>, n: nat)
    requires n <= |a| && n <= |b|
  {
    forall l :: 0 <= l < n ==> a[l] == b[l]
  }

  /** `VectorStore(index_path, dim)`: the given dimension, the default
      capacity and tuning, a reserve size of one increment, and no mappings. */
  function NewStore(dim: I32): (s: VectorStore)
    ensures Valid(s)
    ensures s.dim == dim && s.nextLabel == 0
    ensures s.maxElements == 10000 && s.m == 16 && s.efConstruction == 200 && s.ef == 10
    ensures s.allowReplaceDeleted && s.reservedSize == 1000
    ensures s.idToLabel == map[] && s.labelToId == []
  {
    VectorStore(dim, DEFAULT_MAX_ELEMENTS, DEFAULT_M, DEFAULT_EF_CONSTRUCTION, DEFAULT_EF,
                true, map[], [], 0, LABEL_RESERVE_INCREMENT_SIZE)
  }

  /** `cleanMappings`: forgets every mapping in both directions and restarts the
      counter, leaving configuration (and the index) alone. */
  function CleanMappings(s: VectorStore): (r: VectorStore)
    ensures Valid(r)
    ensures SameConfig(s, r)
    ensures r.nextLabel == 0 && |r.idToLabel| == 0 && |r.labelToId| == 0
  {
    s.(labelToId := [], idToLabel := map[], nextLabel := 0)
  }

  /** Under the invariant the live labels are exactly 0 .. nextLabel-1: every
      live reverse slot names a mapped user id whose label is that slot. */
  lemma LiveLabelsAreDense(s: VectorStore)
    requires Valid(s)
    ensures forall l :: 0 <= l < s.nextLabel ==>
              s.labelToId[l] in s.idToLabel && s.idToLabel[s.labelToId[l]] == l
  {
    LabelsFillTheCounter(s);
    forall l | 0 <= l < s.nextLabel
      ensures s.labelToId[l] in s.idToLabel && s.idToLabel[s.labelToId[l]] == l
    {
      assert l in s.idToLabel.Values;
      var u :| u in s.idToLabel && s.idToLabel[u] == l;
    }
  }

  /** The labels in use are all of 0 .. nextLabel-1: they are below the counter
      and, since each names its user id back, there are as many as user ids. */
  lemma LabelsFillTheCounter(s: VectorStore)
    requires Valid(s)
    ensures s.idToLabel.Values == Below(s.nextLabel)
  {
    var back := (l: U64) => if l < |s.labelToId| then s.labelToId[l] else 0;
    KeysAreImageOfLabels(s, back);
    ImageNoLarger(s.idToLabel.Values, back);
    SubsetNoLarger(s.idToLabel.Keys, set l | l in s.idToLabel.Values :: back(l));
    assert s.idToLabel.Values <= Below(s.nextLabel);
    SubsetOfEqualSize(s.idToLabel.Values, Below(s.nextLabel));
  }

  /** Reading the reverse vector at the labels in use recovers every user id. */
  lemma KeysAreImageOfLabels(s: VectorStore, back: U64 -> U64)
    requires Valid(s)
    requires forall l: U64 :: back(l) == if l < |s.labelToId| then s.labelToId[l] else 0
    ensures s.idToLabel.Keys <= set l | l in s.idToLabel.Values :: back(l)
  {
    forall u | u in s.idToLabel
      ensures u in set l | l in s.idToLabel.Values :: back(l)
    {
      var l := s.idToLabel[u];
      assert l in s.idToLabel.Values;
      assert back(l) == u;
    }
  }

  /** Two distinct live slots never name the same user id. */
  lemma LiveSlotsDistinct(s: VectorStore)
    requires Valid(s)
    ensures forall i, j :: 0 <= i < j < s.nextLabel ==> s.labelToId[i] != s.labelToId[j]
  {
    LiveLabelsAreDense(s);
  }

  /** The labels 0 .. n-1 as a set. */
  function Below(n: U64): (r: set<U64>)
    ensures |r| == n
    ensures forall l: U64 :: l in r <==> l < n
  {
    if n == 0 then {} else
      var r := Below(n - 1) + {n - 1};
      assert n - 1 !in Below(n - 1);
      r
  }

  /** The image of a set under a function is no larger than the set. */
  lemma {:induction false} ImageNoLarger(xs: set<U64>, f: U64 -> U64)
    ensures |set x | x in xs :: f(x)| <= |xs|
    decreases |xs|
  {
    if xs != {} {
      var x :| x in xs;
      var rest := xs - {x};
      ImageNoLarger(rest, f);
      assert (set y | y in xs :: f(y)) == (set y | y in rest :: f(y)) + {f(x)};
    }
  }

  /** A subset is no larger than its superset. */
  lemma SubsetNoLarger(a: set<U64>, b: set<U64>)
    requires a <= b
    ensures |a| <= |b|
  {
    assert b == a + (b - a);
  }

  /** A subset at least as large as its superset is the superset. */
  lemma SubsetOfEqualSize(a: set<U64>, b: set<U64>)
    requires a <= b && |b| <= |a|
    ensures a == b
  {
    assert |b - a| == |b| - |a|;
  }
}
