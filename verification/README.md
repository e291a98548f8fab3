# VectorStore identity mapping, in Dafny

This project models the identity-mapping layer of the `VectorStore` class
template of ContextMemory (`include/ContextMemory/vector_store.h`). The store
wraps an hnswlib HNSW index. hnswlib wants dense labels 0, 1, 2, …, and callers
choose arbitrary 64-bit user ids. The store bridges the two with:

- a forward map `id_to_label_` (user id → label);
- a reverse vector `label_to_id_` (label → user id), over-allocated in chunks of
  `LABEL_RESERVE_INCREMENT_SIZE` = 1000;
- a counter `next_label_`.

The model covers:

- constructor defaults;
- `add_vector`: the order of its checks, reserve growth, and the index insert
  before any mapping update;
- `cleanMappings`;
- label-to-user-id translation in `search_vectors`;
- the word layout of the mapping file (`save_mappings`/`load_mappings`);
- the field order of the metadata file.

The hnswlib index is an oracle. `add_vector` takes a boolean saying whether
`addPoint` returned normally. `search_vectors` takes the list of hits that
`searchKnnCloserFirst` returned.

The identity invariant is `IdentityMap.Valid`:

- every mapped user id has a label below the counter;
- the reverse slot at that label names the user id back;
- there are exactly `next_label_` mapped ids;
- the reverse vector is at least `next_label_` long.

From the invariant, `IdentityMap.LiveLabelsAreDense` proves that the live labels
are exactly 0 … `next_label_`-1, each owned by the id its reverse slot names. The
proof is a counting argument.

Modules:

- `Bounded`: 64-bit words, `int` fields, and the `int`→`size_t` conversion.
- `Outcomes`: the `Result` type.
- `IdentityMap`: store state, invariant, constructor, `cleanMappings`.
- `Ingest`: `add_vector`.
- `Query`: `search_vectors`.
- `MappingFile`: `save_mappings`/`load_mappings`.
- `MetadataFile`: `save_index_metadata`/`load_index_metadata`.

Where the two comparisons of `add_vector` and `search_vectors` mix `size_t`
with `int` (`vec.size() != dim_`, `next_label_ >= max_elements_`), the `int`
operand is converted to `size_t` as C++ does (`Bounded.ToUnsigned`).

The header does not grow capacity: `add_vector` throws once the counter
reaches `max_elements_`. It has no batch insert, no locking, and no error
types beyond `std::runtime_error`. `load_mappings` does not compare the count
with the file length. `save_mappings` writes one pair per forward-map entry,
and `load_mappings` reads back `count` pairs. These agree only under the
invariant, which is why the round trip requires it.

## Model

| member | source | states |
|---|---|---|
| Bounded.ToUnsigned | include/ContextMemory/vector_store.h:101-112 | an `int` compared with a `size_t` keeps its value when non-negative and has 2^64 added when negative |
| IdentityMap.Valid | include/ContextMemory/vector_store.h:46-54 | the identity invariant: each mapped id has a label below the counter whose reverse slot names the id; there are exactly counter-many mapped ids; the reverse vector is at least counter long |
| IdentityMap.NewStore | include/ContextMemory/vector_store.h:58-65 | a new store has the given dimension, capacity 10000, M 16, ef_construction 200, ef 10, replace-deleted on, reserve size 1000, no mappings and counter 0, and satisfies the identity invariant |
| IdentityMap.CleanMappings | include/ContextMemory/vector_store.h:165-170 | clearing empties both directions and zeroes the counter, keeps dimension, capacity, tuning and reserve size, and leaves a store satisfying the invariant |
| IdentityMap.LiveLabelsAreDense | include/ContextMemory/vector_store.h:46-53 | under the invariant every label below the counter is owned: its reverse slot names a mapped user id whose label is that slot |
| IdentityMap.LabelsFillTheCounter | include/ContextMemory/vector_store.h:122-125 | under the invariant the set of labels in use is exactly 0 .. next_label-1 |
| IdentityMap.LiveSlotsDistinct | include/ContextMemory/vector_store.h:122-125 | under the invariant no two live reverse slots hold the same user id |
| Ingest.DimensionMatches | include/ContextMemory/vector_store.h:102 | a vector length matches the dimension exactly when it equals a non-negative dimension, or a negative one plus 2^64 (the `int` converted to `size_t`) |
| Ingest.HasRoom | include/ContextMemory/vector_store.h:109 | there is room exactly when the counter is below a non-negative capacity, or below a negative one plus 2^64 (`max_elements_` converted to `size_t`) |
| Ingest.ReserveLabels | include/ContextMemory/vector_store.h:114-117 | the reverse vector grows only when the counter has reached its length, then to counter + 1000; existing slots are kept and afterwards the counter indexes a slot |
| Ingest.AddVector | include/ContextMemory/vector_store.h:101-126 | the refusals happen in order (wrong dimension, duplicate id, counter at capacity) with no state change; a failed index insert keeps mappings and counter and may only have grown the reserve; a success maps the id to the old counter in both directions, increments the counter by one, keeps other forward entries and live reverse slots, and changes no configuration |
| Ingest.AddPreservesValid | include/ContextMemory/vector_store.h:114-125 | every outcome of an add, success or exception, preserves the identity invariant |
| Ingest.FirstAdd | include/ContextMemory/vector_store.h:119-125 | an admissible add whose index insert succeeds yields a valid store that keeps every earlier mapping and maps the new id to the old counter |
| Ingest.AddEachAssignsConsecutiveLabels | include/ContextMemory/vector_store.h:101-126 | adding distinct fresh ids within capacity succeeds for each; the counter grows by their number, the i-th id gets label counter+i in both directions, and earlier mappings stay |
| Query.SearchVectors | include/ContextMemory/vector_store.h:133-155 | a query of the wrong dimension is refused; otherwise one record per index hit, in the index's order, with the hit's distance and the reverse slot of its label; under the invariant each record's user id owns that label |
| MappingFile.EncodePairs | include/ContextMemory/vector_store.h:185-190 | the pair area holds, for the i-th key of the iteration order, the key followed by its label |
| MappingFile.ReadPairs | include/ContextMemory/vector_store.h:249-256 | one forward-map update per pair, in file order, so every user id already in the map stays in it |
| MappingFile.ReadPairsKeys | include/ContextMemory/vector_store.h:248-256 | the rebuilt forward map holds exactly the user ids of the pairs read plus those already present |
| MappingFile.ReadPairsLastWins | include/ContextMemory/vector_store.h:249-256 | the last pair carrying a user id decides its label, so a later duplicate overwrites an earlier one |
| MappingFile.ReadPairsUntouched | include/ContextMemory/vector_store.h:249-256 | a user id carried by no pair read keeps the label it had |
| MappingFile.EncodeMappings | include/ContextMemory/vector_store.h:172-192 | the file is the counter, the reverse slots below the counter, then one (user id, label) pair per forward entry in iteration order |
| MappingFile.DecodeMappings | include/ContextMemory/vector_store.h:231-259 | a missing or zero count is refused; a file too short for count slots and count pairs is refused; otherwise counter = count, reverse vector = exactly the next count words, forward map = what the read loop builds from the following count pairs (see the ReadPairs lemmas), configuration untouched |
| MappingFile.ReadEncodedPairs | include/ContextMemory/vector_store.h:247-256 | reading back the pairs written from any iteration order rebuilds exactly the forward map |
| MappingFile.EmptyStoreNotReloadable | include/ContextMemory/vector_store.h:238-242 | a valid store holding no mapping saves a zero count, so loading what it saved is refused as an empty mapping |
| MappingFile.SaveLoadRoundTrip | include/ContextMemory/vector_store.h:231-259 | for every iteration order of the forward map, loading what a non-empty valid store saved restores the counter, the live reverse slots (and nothing beyond) and the forward map into any store |
| MappingFile.SaveCleanLoad | tests/core/test_vector_store.cpp:48-59 | save, clean, load gives a valid store with the same configuration, counter, forward map and live reverse slots, so every live label translates to the same user id |
| MappingFile.TrimmedIsValid | include/ContextMemory/vector_store.h:244-246 | cutting the reverse vector down to the counter keeps the invariant and the live slots |
| MetadataFile.EncodeMetadata | include/ContextMemory/vector_store.h:194-213 | the metadata file has the seven-field layout (five int words, a flag, a size word), with the flag carrying allow_replace_deleted |
| MetadataFile.EncodedWidth | include/ContextMemory/vector_store.h:200-211 | the metadata file takes 49 bytes: six 8-byte fields and one 1-byte flag |
| MetadataFile.DecodeMetadata | include/ContextMemory/vector_store.h:215-229 | a field sequence is read successfully exactly when it has the saved layout, and what is read re-encodes to the same fields |
| MetadataFile.WithMetadata | include/ContextMemory/vector_store.h:221-227 | loading metadata sets the configuration to what was read and leaves the mappings and counter alone |
| MetadataFile.MetadataRoundTrip | include/ContextMemory/vector_store.h:194-229 | saving a store's metadata and loading it into any store gives that store the same configuration without changing its mappings |

## Left out

- The hnswlib index is an oracle. This covers `addPoint`, `searchKnnCloserFirst`,
  `saveIndex`/`loadIndex`, `getCurrentElementCount`, and the L2/inner-product
  spaces. It is a foreign library.
- Float vectors are reduced to their length. Distances are opaque 64-bit values.
  The float-to-`uint64_t` truncation of a hit's distance is assumed to have
  happened already.
- `search_vectors`' `k` is not modelled. It only goes to the index and to a
  `reserve` call.
- File I/O is not modelled: open failures, native byte order, and
  `save_index`'s sequencing of index, mapping and metadata saves. Files are
  sequences of words or fields.
- The store-loading constructor is left out. It only orchestrates the metadata
  load, the index load and `load_mappings`.
- Getters and `get_index` are left out as trivial. The `SIM_POLICY` template
  machinery is left out because it only selects the foreign metric.
- `src/core/vector_store.cpp` is a stale non-template duplicate of the header
  with stub save/load, and is not part of this model.
- Ingest.ReserveLabels: the `size_t` sum `next_label_ + 1000` is taken without
  wrap-around. It could wrap only after about 2^64 inserts, which needs a
  negative `max_elements_` read from metadata.
- Ingest.AddVector: it inherits the same unbounded `next_label_ + 1000`.
- Query.SearchVectors: it requires every label the index returns to address a
  slot of the reverse vector. The source indexes `label_to_id_` unchecked, for
  example after `cleanMappings`, where the read is undefined.
- MappingFile.DecodeMappings: a file shorter than `1 + 3*count` words is
  reported as `ShortRead`. The source does not check short reads and continues
  with unspecified contents.
- MappingFile.DecodeMappings: the `int` loop counter over a `uint64_t` count
  overflowing above 2^31-1 pairs is not modelled. Trailing words after the
  pairs are ignored, as in the source.
- MetadataFile.DecodeMetadata: this is only the abstract field order. The
  source writes and reads each 4-byte `int` as 8 bytes, which touches adjacent
  memory, and opens the file for reading in text mode. Both are
  platform-dependent undefined behaviour. A field sequence without the saved
  layout is reported as `MalformedMetadata` rather than left unspecified.
