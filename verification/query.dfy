/**
 `VectorStore::search_vectors`: the dimension check, then the rewrite of the
 (distance, label) list returned by hnswlib's `searchKnnCloserFirst` into
 (user id, distance) records, in the index's closest-first order.
 */
module Query {
  import opened Bounded
  import opened Outcomes
  import opened IdentityMap
  import Ingest

  /** One entry of the index's answer; `distance` is the float distance after
      the store's conversion to `uint64_t`, kept opaque here. */
  datatype Hit = Hit(distance: U64, hnswLabel: U64)

  /** `VectorStore::SearchResult`. */
  datatype SearchResult = SearchResult(userId: U64, distance: U64)

  datatype QueryError = QueryDimensionMismatch

  /** Every label the index returned addresses a slot of the reverse vector. */
  predicate HitsInReverse(s: VectorStore, hits: seq<Hit>) {
    forall i :: 0 <= i < |hits| ==> hits[i].hnswLabel < |s.labelToId|
  }

  /** Every label the index returned was assigned by this store. */
  predicate HitsLive(s: VectorStore, hits: seq<Hit>) {
    forall i :: 0 <= i < |hits| ==> hits[i].hnswLabel < s.nextLabel
  }

  /** `search_vectors(query, k)`, with `hits` the index's closest-first answer
      for `query` and `k`. A query of the wrong length is refused before the
      index is consulted; otherwise there is one record per hit, in order. */
  method SearchVectors<F>(s: VectorStore, query: seq<F>, hits: seq<Hit>)
      returns (r: Result<seq<SearchResult>, QueryError>)
    requires Ingest.DimensionMatches(|query|, s.dim) ==> HitsInReverse(s, hits)
    ensures r.Failure? <==> !Ingest.DimensionMatches(|query|, s.dim)
    ensures r.Success? ==> |r.value| == |hits|
    ensures r.Success? ==> forall i :: 0 <= i < |hits| ==>
              && r.value[i].distance == hits[i].distance
              && r.value[i].userId == s.labelToId[hits[i].hnswLabel]
    // under the invariant each record names the user id that owns the hit's label
    ensures r.Success? && Valid(s) && HitsLive(s, hits) ==> forall i :: 0 <= i < |hits| ==>
              r.value[i].userId in s.idToLabel && s.idToLabel[r.value[i].userId] == hits[i].hnswLabel
  {
    if !Ingest.DimensionMatches(|query|, s.dim) {
      return Failure(QueryDimensionMismatch);
    }
    var out: seq<SearchResult> := [];
    var i := 0;
    while i < |hits|
      invariant 0 <= i <= |hits|
      invariant |out| == i
      invariant forall j :: 0 <= j < i ==>
                  out[j] == SearchResult(s.labelToId[hits[j].hnswLabel], hits[j].distance)
    {
      out := out + [SearchResult(s.labelToId[hits[i].hnswLabel], hits[i].distance)];
      i := i + 1;
    }
    if Valid(s) && HitsLive(s, hits) {
      LiveLabelsAreDense(s);
    }
    return Success(out);
  }
}
