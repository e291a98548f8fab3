/**
 The mapping file written by `save_mappings` and read by `load_mappings`, as a
 sequence of 64-bit words (native byte order is abstracted away):

   [count] ++ reverse slots 0 .. count-1 ++ one (user id, label) pair per
   forward-map entry, in the map's iteration order.
 */
module MappingFile {
  import opened Bounded
  import opened Outcomes
  import opened IdentityMap

  /** Why `load_mappings` gives up. */
  datatype LoadError =
    | EmptyMapping   // the leading count is 0, or the file holds no count at all
    | ShortRead      // the file ends before `count` slots and `count` pairs

  /** `order` lists every key of `keys` exactly once: one iteration order of
      the `unordered_map`, which the source leaves unspecified. */
  predicate Enumerates(order: seq<U64>, keys: set<U64>) {
    && |order| == |keys|
    && (forall i, j :: 0 <= i < j < |order| ==> order[i] != order[j])
    && (forall k :: k in order ==> k in keys)
    && (forall k :: k in keys ==> k in order)
  }

  /** User id of the i-th pair of a pair area. */
  function KeyAt(w: seq<U64>, i: nat): U64
    requires 2 * i + 1 < |w|
  {
    w[2 * i]
  }

  /** Label of the i-th pair of a pair area. */
  function ValueAt(w: seq<U64>, i: nat): U64
    requires 2 * i + 1 < |w|
  {
    w[2 * i + 1]
  }

  /** Some pair among pairs i .. n-1 has user id `k`. */
  predicate Occurs(w: seq<U64>, k: U64, i: nat, n: nat)
    requires 2 * n <= |w|
  {
    exists j :: i <= j < n && KeyAt(w, j) == k
  }

  /** Pair j is the last among pairs j .. n-1 with its user id. */
  predicate LastAt(w: seq<U64>, j: nat, n: nat)
    requires j < n && 2 * n <= |w|
  {
    forall j' :: j < j' < n ==> KeyAt(w, j') != KeyAt(w, j)
  }

  /** The pair area written by the range-for over the forward map. */
  function EncodePairs(order: seq<U64>, m: map<U64, U64>): (w: seq<U64>)
    requires forall k :: k in order ==> k in m
    ensures |w| == 2 * |order|
    ensures forall i :: 0 <= i < |order| ==> KeyAt(w, i) == order[i] && ValueAt(w, i) == m[order[i]]
  {
    if |order| == 0 then []
    else
      var rest := EncodePairs(order[1..], m);
      var w := [order[0], m[order[0]]] + rest;
      assert forall i :: 1 <= i < |order| ==>
        KeyAt(w, i) == KeyAt(rest, i - 1) && ValueAt(w, i) == ValueAt(rest, i - 1);
      w
  }

  /** The read loop of `load_mappings` from pair i on: each pair is stored with
      `id_to_label_[user_id] = label`. */
  function ReadPairs(acc: map<U64, U64>, w: seq<U64>, i: nat, n: nat): (r: map<U64, U64>)
    requires i <= n && 2 * n <= |w|
    ensures acc.Keys <= r.Keys
    decreases n - i
  {
    if i == n then acc
    else ReadPairs(acc[KeyAt(w, i) := ValueAt(w, i)], w, i + 1, n)
  }

  /** Reading pairs i .. n-1 adds exactly their user ids to the map. */
  lemma {:induction false} ReadPairsKeys(acc: map<U64, U64>, w: seq<U64>, i: nat, n: nat)
    requires i <= n && 2 * n <= |w|
    ensures forall k :: k in ReadPairs(acc, w, i, n) <==> k in acc || Occurs(w, k, i, n)
    decreases n - i
  {
    if i < n {
      var acc' := acc[KeyAt(w, i) := ValueAt(w, i)];
      ReadPairsKeys(acc', w, i + 1, n);
      forall k
        ensures k in ReadPairs(acc, w, i, n) <==> k in acc || Occurs(w, k, i, n)
      {
        if Occurs(w, k, i, n) && !Occurs(w, k, i + 1, n) {
          var j :| i <= j < n && KeyAt(w, j) == k;
          assert j == i;
        }
        if Occurs(w, k, i + 1, n) {
          var j :| i + 1 <= j < n && KeyAt(w, j) == k;
          assert i <= j;
        }
      }
    }
  }

  /** The last pair with a given user id decides its label: a later duplicate
      overwrites an earlier one. */
  lemma {:induction false} ReadPairsLastWins(acc: map<U64, U64>, w: seq<U64>, i: nat, n: nat)
    requires i <= n && 2 * n <= |w|
    ensures forall j :: i <= j < n && LastAt(w, j, n) ==>
              && KeyAt(w, j) in ReadPairs(acc, w, i, n)
              && ReadPairs(acc, w, i, n)[KeyAt(w, j)] == ValueAt(w, j)
    decreases n - i
  {
    if i < n {
      var acc' := acc[KeyAt(w, i) := ValueAt(w, i)];
      ReadPairsLastWins(acc', w, i + 1, n);
      if LastAt(w, i, n) {
        ReadPairsUntouched(acc', w, i + 1, n);
        assert !Occurs(w, KeyAt(w, i), i + 1, n);
        assert ReadPairs(acc, w, i, n)[KeyAt(w, i)] == ValueAt(w, i);
      }
    }
  }

  /** A user id none of pairs i .. n-1 carries keeps the label it had. */
  lemma {:induction false} ReadPairsUntouched(acc: map<U64, U64>, w: seq<U64>, i: nat, n: nat)
    requires i <= n && 2 * n <= |w|
    ensures forall k :: k in acc && !Occurs(w, k, i, n) ==>
              k in ReadPairs(acc, w, i, n) && ReadPairs(acc, w, i, n)[k] == acc[k]
    decreases n - i
  {
    if i < n {
      var acc' := acc[KeyAt(w, i) := ValueAt(w, i)];
      ReadPairsUntouched(acc', w, i + 1, n);
      forall k | k in acc && !Occurs(w, k, i, n)
        ensures k in ReadPairs(acc, w, i, n) && ReadPairs(acc, w, i, n)[k] == acc[k]
      {
        assert KeyAt(w, i) != k;
        assert !Occurs(w, k, i + 1, n);
      }
    }
  }

  /** The words after the count and the reverse slots. */
  function PairArea(words: seq<U64>): seq<U64>
    requires 0 < |words| && 1 + words[0] <= |words|
  {
    words[1 + words[0]..]
  }

  /** `save_mappings`: the counter, the live part of the reverse vector, then the
      forward map in the iteration order `order`. */
  function EncodeMappings(s: VectorStore, order: seq<U64>): (words: seq<U64>)
    requires s.nextLabel <= |s.labelToId|
    requires Enumerates(order, s.idToLabel.Keys)
    ensures |words| == 1 + s.nextLabel + 2 * |s.idToLabel|
    ensures words[0] == s.nextLabel
    ensures words[1..1 + s.nextLabel] == s.labelToId[..s.nextLabel]
    ensures PairArea(words) == EncodePairs(order, s.idToLabel)
    ensures forall i :: 0 <= i < |order| ==>
              KeyAt(PairArea(words), i) == order[i] && ValueAt(PairArea(words), i) == s.idToLabel[order[i]]
  {
    var pairs := EncodePairs(order, s.idToLabel);
    var words := [s.nextLabel] + s.labelToId[..s.nextLabel] + pairs;
    assert PairArea(words) == pairs;
    words
  }

  /** `load_mappings` into the store `s`: a zero (or absent) count is refused;
      otherwise the counter becomes the count, the reverse vector exactly the
      next `count` words, and the forward map is rebuilt from `count` pairs. The
      dimension, capacity, tuning and reserve size are not touched. */
  function DecodeMappings(s: VectorStore, words: seq<U64>): (r: Result<VectorStore, LoadError>)
    ensures r == Failure(EmptyMapping) <==> |words| == 0 || words[0] == 0
    ensures r == Failure(ShortRead) <==> |words| > 0 && 0 < words[0] && |words| < 1 + 3 * (words[0] as int)
    ensures r.Success? ==>
              && r.value.nextLabel == words[0]
              && r.value.labelToId == words[1..1 + words[0]]
              && SameConfig(s, r.value)
    ensures r.Success? ==> |words| >= 1 + 3 * (words[0] as int)
    ensures r.Success? ==> r.value.idToLabel == ReadPairs(map[], PairArea(words), 0, words[0])
  {
    if |words| == 0 || words[0] == 0 then Failure(EmptyMapping)
    else
      var n := words[0];
      if |words| < 1 + 3 * (n as int) then Failure(ShortRead)
      else
        Success(s.(labelToId := words[1..1 + n],
                   idToLabel := ReadPairs(map[], PairArea(words), 0, n),
                   nextLabel := n))
  }

  /** Reading back a pair area written from a duplicate-free enumeration of a
      map's keys rebuilds exactly that map. */
  lemma ReadEncodedPairs(order: seq<U64>, m: map<U64, U64>)
    requires Enumerates(order, m.Keys)
    ensures ReadPairs(map[], EncodePairs(order, m), 0, |order|) == m
  {
    var w := EncodePairs(order, m);
    var n := |order|;
    var back := ReadPairs(map[], w, 0, n);
    ReadPairsKeys(map[], w, 0, n);
    forall k | k in m
      ensures k in back && back[k] == m[k]
    {
      var j :| 0 <= j < n && order[j] == k;
      assert KeyAt(w, j) == k;
      assert LastAt(w, j, n);
      ReadPairsLastWins(map[], w, 0, n);
    }
    forall k | k in back
      ensures k in m
    {
      assert Occurs(w, k, 0, n);
      var j :| 0 <= j < n && KeyAt(w, j) == k;
      assert order[j] == k;
    }
    assert back == m;
  }

  /** A store holding no mapping saves a zero count, which `load_mappings`
      refuses: an empty store cannot be reloaded. */
  lemma EmptyStoreNotReloadable(s: VectorStore, order: seq<U64>, into: VectorStore)
    requires Valid(s) && s.nextLabel == 0
    requires Enumerates(order, s.idToLabel.Keys)
    ensures DecodeMappings(into, EncodeMappings(s, order)) == Failure(EmptyMapping)
  {
    assert EncodeMappings(s, order)[0] == 0;
  }

  /** `save_mappings` followed by `load_mappings`, for every iteration order of
      the forward map: the counter, the live reverse slots and the forward map
      come back exactly, and the reverse vector is trimmed to the counter. */
  lemma SaveLoadRoundTrip(s: VectorStore, order: seq<U64>, into: VectorStore)
    requires Valid(s) && s.nextLabel > 0
    requires Enumerates(order, s.idToLabel.Keys)
    ensures DecodeMappings(into, EncodeMappings(s, order)) ==
              Success(into.(idToLabel := s.idToLabel,
                            labelToId := s.labelToId[..s.nextLabel],
                            nextLabel := s.nextLabel))
  {
    ReadEncodedPairs(order, s.idToLabel);
  }

  /** `save_mappings`, `cleanMappings`, `load_mappings`: the reloaded store is
      valid, keeps its configuration, and maps every user id and every live
      label as before, so every live label translates to the same user id. */
  lemma SaveCleanLoad(s: VectorStore, order: seq<U64>)
    requires Valid(s) && s.nextLabel > 0
    requires Enumerates(order, s.idToLabel.Keys)
    ensures var r := DecodeMappings(CleanMappings(s), EncodeMappings(s, order));
            && r.Success?
            && Valid(r.value)
            && SameConfig(s, r.value)
            && r.value.nextLabel == s.nextLabel
            && r.value.idToLabel == s.idToLabel
            && SamePrefix(r.value.labelToId, s.labelToId, s.nextLabel)
  {
    SaveLoadRoundTrip(s, order, CleanMappings(s));
    var t := CleanMappings(s).(idToLabel := s.idToLabel,
                               labelToId := s.labelToId[..s.nextLabel],
                               nextLabel := s.nextLabel);
    TrimmedIsValid(s, t);
  }

  /** Trimming the reverse vector to the counter keeps the invariant. */
  lemma TrimmedIsValid(s: VectorStore, t: VectorStore)
    requires Valid(s)
    requires t.idToLabel == s.idToLabel && t.nextLabel == s.nextLabel
    requires t.labelToId == s.labelToId[..s.nextLabel]
    ensures Valid(t)
    ensures SamePrefix(t.labelToId, s.labelToId, s.nextLabel)
  {
  }
}
