/**
 `VectorStore::add_vector`: validation in a fixed order, over-allocation of the
 reverse vector, the hnswlib insert (an oracle that either accepts the point
 or throws), and only then the mapping update.
 */
module Ingest {
  import opened Bounded
  import opened IdentityMap

  /** The four ways `add_vector` throws. */
  datatype AddError =
    | DimensionMismatch   // vector length differs from the store's dimension
    | DuplicateId         // the user id is already mapped
    | CapacityExceeded    // the counter has reached `max_elements_`
    | IndexInsertFailed   // hnswlib's `addPoint` threw

  /** What `add_vector` leaves behind: the new state, or the error together with
      the state at the moment the exception left the call. */
  datatype AddOutcome =
    | Added(store: VectorStore)
    | Refused(error: AddError, store: VectorStore)

  /** `vec.size() != dim_` compares a `size_t` with an `int`. */
  predicate DimensionMatches(len: nat, dim: I32): (r: bool)
    ensures 0 <= dim ==> (r <==> len == dim)
    ensures dim < 0 ==> (r <==> len == dim + TWO_TO_THE_64)
  {
    len == ToUnsigned(dim)
  }

  /** The counter is below the capacity (`next_label_ < max_elements_`, again
      with the `int` converted to `size_t`). */
  predicate HasRoom(s: VectorStore): (r: bool)
    ensures 0 <= s.maxElements ==> (r <==> s.nextLabel < s.maxElements)
    ensures s.maxElements < 0 ==> (r <==> s.nextLabel < s.maxElements + TWO_TO_THE_64)
  {
    s.nextLabel < ToUnsigned(s.maxElements)
  }

  /** All three checks `add_vector` makes before touching any state. */
  predicate Admissible<F>(s: VectorStore, userId: U64, vec: seq<F>) {
    DimensionMatches(|vec|, s.dim) && userId !in s.idToLabel && HasRoom(s)
  }

  /** `n` value-initialised reverse slots. */
  function Zeros(n: nat): (z: seq<U64>)
    ensures |z| == n
  {
    seq(n, _ => 0)
  }

  /** The reverse vector is grown only when the counter has caught up with its
      length, and then to one reserve increment past the counter. */
  function ReserveLabels(s: VectorStore): (r: VectorStore)
    ensures r == s.(labelToId := r.labelToId)
    ensures s.nextLabel < |r.labelToId|
    ensures |s.labelToId| <= |r.labelToId|
    ensures |r.labelToId| ==
              if s.nextLabel >= |s.labelToId| then s.nextLabel + LABEL_RESERVE_INCREMENT_SIZE
              else |s.labelToId|
    ensures r.labelToId[..|s.labelToId|] == s.labelToId
  {
    if s.nextLabel >= |s.labelToId| then
      s.(labelToId := s.labelToId + Zeros(s.nextLabel + LABEL_RESERVE_INCREMENT_SIZE - |s.labelToId|))
    else
      s
  }

  /** `add_vector(userId, vec)`, with `pointAdded` standing for whether
      hnswlib's `addPoint(vec, next_label_)` returned normally. */
  function AddVector<F>(s: VectorStore, userId: U64, vec: seq<F>, pointAdded: bool): (r: AddOutcome)
    // the refusals, in the order they are tested, leave the state as it was
    ensures r == Refused(DimensionMismatch, s) <==> !DimensionMatches(|vec|, s.dim)
    ensures r == Refused(DuplicateId, s) <==> DimensionMatches(|vec|, s.dim) && userId in s.idToLabel
    ensures r == Refused(CapacityExceeded, s) <==>
              DimensionMatches(|vec|, s.dim) && userId !in s.idToLabel && !HasRoom(s)
    // a failed index insert keeps mappings and counter; only the reserve may have grown
    ensures r.Refused? && r.error == IndexInsertFailed <==> Admissible(s, userId, vec) && !pointAdded
    ensures |s.labelToId| <= |r.store.labelToId|
    ensures r.Refused? && r.error == IndexInsertFailed ==>
              && r.store.idToLabel == s.idToLabel
              && r.store.nextLabel == s.nextLabel
              && r.store.labelToId[..|s.labelToId|] == s.labelToId
    // success: the user id gets the old counter as its label, in both directions
    ensures r.Added? <==> Admissible(s, userId, vec) && pointAdded
    ensures r.Added? ==>
              && r.store.nextLabel == s.nextLabel + 1
              && r.store.idToLabel.Keys == s.idToLabel.Keys + {userId}
              && r.store.idToLabel[userId] == s.nextLabel
              && (forall u :: u in s.idToLabel ==> r.store.idToLabel[u] == s.idToLabel[u])
              && s.nextLabel < |r.store.labelToId|
              && r.store.labelToId[s.nextLabel] == userId
              && (s.nextLabel <= |s.labelToId| ==> SamePrefix(r.store.labelToId, s.labelToId, s.nextLabel))
    // the reverse vector grows exactly when the counter reached its length
    ensures Admissible(s, userId, vec) ==>
              |r.store.labelToId| ==
                if s.nextLabel >= |s.labelToId| then s.nextLabel + LABEL_RESERVE_INCREMENT_SIZE
                else |s.labelToId|
    ensures SameConfig(s, r.store)
  {
    if !DimensionMatches(|vec|, s.dim) then Refused(DimensionMismatch, s)
    else if userId in s.idToLabel then Refused(DuplicateId, s)
    else if !HasRoom(s) then Refused(CapacityExceeded, s)
    else
      var grown := ReserveLabels(s);
      if !pointAdded then Refused(IndexInsertFailed, grown)
      else
        Added(grown.(idToLabel := grown.idToLabel[userId := s.nextLabel],
                     labelToId := grown.labelToId[s.nextLabel := userId],
                     nextLabel := s.nextLabel + 1))
  }

  /** Every outcome of `add_vector`, success or exception, keeps the identity
      invariant. */
  lemma AddPreservesValid<F>(s: VectorStore, userId: U64, vec: seq<F>, pointAdded: bool)
    requires Valid(s)
    ensures Valid(AddVector(s, userId, vec, pointAdded).store)
  {
    var r := AddVector(s, userId, vec, pointAdded);
    if r.Added? {
      ExtendKeepsValid(s, userId, r.store);
    } else if r.error == IndexInsertFailed {
      GrowKeepsValid(s, r.store);
    }
  }

  /** Mapping a fresh id to the counter in both directions, then advancing the
      counter, keeps the invariant. */
  lemma ExtendKeepsValid(s: VectorStore, userId: U64, t: VectorStore)
    requires Valid(s) && userId !in s.idToLabel
    requires t.idToLabel == s.idToLabel[userId := s.nextLabel]
    requires t.nextLabel == s.nextLabel + 1
    requires s.nextLabel < |t.labelToId| && t.labelToId[s.nextLabel] == userId
    requires SamePrefix(t.labelToId, s.labelToId, s.nextLabel)
    ensures Valid(t)
  {
    forall u | u in t.idToLabel
      ensures t.idToLabel[u] < t.nextLabel && t.labelToId[t.idToLabel[u]] == u
    {
      if u != userId {
        assert t.labelToId[s.idToLabel[u]] == s.labelToId[s.idToLabel[u]];
      }
    }
    assert |t.idToLabel| == |t.idToLabel.Keys| == |s.idToLabel.Keys| + 1;
  }

  /** Growing only the reverse vector, with its old slots kept, keeps the
      invariant. */
  lemma GrowKeepsValid(s: VectorStore, t: VectorStore)
    requires Valid(s)
    requires t.idToLabel == s.idToLabel && t.nextLabel == s.nextLabel
    requires |s.labelToId| <= |t.labelToId| && t.labelToId[..|s.labelToId|] == s.labelToId
    ensures Valid(t)
  {
    forall u | u in t.idToLabel
      ensures t.idToLabel[u] < t.nextLabel && t.labelToId[t.idToLabel[u]] == u
    {
      assert t.labelToId[s.idToLabel[u]] == t.labelToId[..|s.labelToId|][s.idToLabel[u]];
    }
  }

  /** Adds `ids`, one after another, all with the same vector and every index
      insert succeeding; stops at the first refusal. */
  function AddEach<F>(s: VectorStore, ids: seq<U64>, vec: seq<F>): (r: AddOutcome)
    decreases |ids|
  {
    if |ids| == 0 then Added(s)
    else
      match AddVector(s, ids[0], vec, true)
      case Added(t) => AddEach(t, ids[1..], vec)
      case refused => refused
  }

  /** Every user id mapped in `s` keeps its label in `t`. */
  predicate KeepsMappings(s: VectorStore, t: VectorStore) {
    forall u :: u in s.idToLabel ==> u in t.idToLabel && t.idToLabel[u] == s.idToLabel[u]
  }

  /** The i-th of `ids` is mapped to label `base + i` in both directions. */
  predicate AssignedFrom(t: VectorStore, ids: seq<U64>, base: nat) {
    forall i :: 0 <= i < |ids| ==>
      && ids[i] in t.idToLabel
      && t.idToLabel[ids[i]] == base + i
      && base + i < |t.labelToId|
      && t.labelToId[base + i] == ids[i]
  }

  /** Adding fresh, distinct ids within capacity succeeds for each of them: the
      counter advances by the number added and the i-th id gets label
      `nextLabel + i`, readable back through the reverse vector. */
  lemma {:induction false} AddEachAssignsConsecutiveLabels<F>(s: VectorStore, ids: seq<U64>, vec: seq<F>)
    requires Valid(s)
    requires DimensionMatches(|vec|, s.dim)
    requires forall i, j :: 0 <= i < j < |ids| ==> ids[i] != ids[j]
    requires forall i :: 0 <= i < |ids| ==> ids[i] !in s.idToLabel
    requires s.nextLabel + |ids| <= ToUnsigned(s.maxElements)
    ensures AddEach(s, ids, vec).Added?
    ensures Valid(AddEach(s, ids, vec).store)
    ensures AddEach(s, ids, vec).store.nextLabel == s.nextLabel + |ids|
    ensures AssignedFrom(AddEach(s, ids, vec).store, ids, s.nextLabel)
    ensures KeepsMappings(s, AddEach(s, ids, vec).store)
    decreases |ids|
  {
    if |ids| > 0 {
      var t := AddEachStep(s, ids, vec);
      AddEachAssignsConsecutiveLabels(t, ids[1..], vec);
      var f := AddEach(t, ids[1..], vec).store;
      assert KeepsMappings(s, f) by {
        assert KeepsMappings(s, t) && KeepsMappings(t, f);
      }
      ShiftAssignment(t, f, ids, s.nextLabel);
    }
  }

  /** The first of several fresh ids is added, and the rest of them meet the
      premises of adding them in turn to the resulting store. */
  lemma AddEachStep<F>(s: VectorStore, ids: seq<U64>, vec: seq<F>) returns (t: VectorStore)
    requires |ids| > 0 && Valid(s)
    requires DimensionMatches(|vec|, s.dim)
    requires forall i, j :: 0 <= i < j < |ids| ==> ids[i] != ids[j]
    requires forall i :: 0 <= i < |ids| ==> ids[i] !in s.idToLabel
    requires s.nextLabel + |ids| <= ToUnsigned(s.maxElements)
    ensures AddEach(s, ids, vec) == AddEach(t, ids[1..], vec)
    ensures Valid(t) && KeepsMappings(s, t)
    ensures t.nextLabel == s.nextLabel + 1
    ensures ids[0] in t.idToLabel && t.idToLabel[ids[0]] == s.nextLabel
    ensures DimensionMatches(|vec|, t.dim)
    ensures forall i, j :: 0 <= i < j < |ids| - 1 ==> ids[1..][i] != ids[1..][j]
    ensures forall i :: 0 <= i < |ids| - 1 ==> ids[1..][i] !in t.idToLabel
    ensures t.nextLabel + |ids[1..]| <= ToUnsigned(t.maxElements)
  {
    t := FirstAdd(s, ids[0], vec);
    FreshAfterFirst(s, t, ids);
  }

  /** One successful add of a fresh id, summarised. */
  lemma FirstAdd<F>(s: VectorStore, u: U64, vec: seq<F>) returns (t: VectorStore)
    requires Valid(s) && Admissible(s, u, vec)
    ensures AddVector(s, u, vec, true) == Added(t)
    ensures Valid(t) && KeepsMappings(s, t)
    ensures t.nextLabel == s.nextLabel + 1 && SameConfig(s, t)
    ensures t.idToLabel.Keys == s.idToLabel.Keys + {u}
    ensures t.idToLabel[u] == s.nextLabel
  {
    t := AddVector(s, u, vec, true).store;
    AddPreservesValid(s, u, vec, true);
  }

  /** Labels assigned to the tail carry over to the whole sequence once the
      head holds the label just before them. */
  lemma ShiftAssignment(t: VectorStore, f: VectorStore, ids: seq<U64>, base: nat)
    requires |ids| > 0 && Valid(f)
    requires ids[0] in t.idToLabel && t.idToLabel[ids[0]] == base
    requires KeepsMappings(t, f)
    requires AssignedFrom(f, ids[1..], base + 1)
    ensures AssignedFrom(f, ids, base)
  {
    forall i | 0 <= i < |ids|
      ensures ids[i] in f.idToLabel && f.idToLabel[ids[i]] == base + i
      ensures base + i < |f.labelToId| && f.labelToId[base + i] == ids[i]
    {
      if i > 0 {
        assert ids[i] == ids[1..][i - 1];
      }
    }
  }

  /** After the first id is added, the remaining ones are still fresh. */
  lemma FreshAfterFirst(s: VectorStore, t: VectorStore, ids: seq<U64>)
    requires |ids| > 0
    requires t.idToLabel.Keys == s.idToLabel.Keys + {ids[0]}
    requires forall i, j :: 0 <= i < j < |ids| ==> ids[i] != ids[j]
    requires forall i :: 0 <= i < |ids| ==> ids[i] !in s.idToLabel
    ensures forall i :: 0 <= i < |ids| - 1 ==> ids[1..][i] !in t.idToLabel
    ensures forall i, j :: 0 <= i < j < |ids| - 1 ==> ids[1..][i] != ids[1..][j]
  {
    forall i, j | 0 <= i < j < |ids| - 1
      ensures ids[1..][i] != ids[1..][j]
    {
      assert ids[1..][i] == ids[i + 1] && ids[1..][j] == ids[j + 1];
    }
    forall i | 0 <= i < |ids| - 1
      ensures ids[1..][i] !in t.idToLabel
    {
      assert ids[1..][i] == ids[i + 1] && ids[0] != ids[i + 1];
    }
  }
}
