/**
 The metadata file written by `save_index_metadata` and read by
 `load_index_metadata`, as an abstract record layout: dimension, capacity,
 M, ef_construction and ef as 8-byte fields, the replace-deleted flag as one
 byte, then the reverse-vector reserve size as an 8-byte field.
 */
module MetadataFile {
  import opened Bounded
  import opened Outcomes
  import opened IdentityMap

  /** One fixed-width field of the file. */
  datatype Field = Word(value: int) | Flag(on: bool)

  /** Bytes a field occupies. */
  function Width(f: Field): nat {
    if f.Word? then 8 else 1
  }

  /** Bytes a run of fields occupies. */
  function TotalWidth(fields: seq<Field>): nat {
    if |fields| == 0 then 0 else Width(fields[0]) + TotalWidth(fields[1..])
  }

  /** The configuration part of a store, as persisted. */
  datatype Metadata = Metadata(
    dim: I32,
    maxElements: I32,
    m: I32,
    efConstruction: I32,
    ef: I32,
    allowReplaceDeleted: bool,
    reservedSize: U64)

  datatype MetadataError = MalformedMetadata

  /** The persisted configuration of a store. */
  function MetadataOf(s: VectorStore): Metadata {
    Metadata(s.dim, s.maxElements, s.m, s.efConstruction, s.ef, s.allowReplaceDeleted, s.reservedSize)
  }

  /** A word holding a C++ `int`. */
  predicate IsIntWord(f: Field) {
    f.Word? && -TWO_TO_THE_31 <= f.value < TWO_TO_THE_31
  }

  /** The layout `save_index_metadata` produces. */
  predicate WellFormed(fields: seq<Field>) {
    && |fields| == 7
    && IsIntWord(fields[0]) && IsIntWord(fields[1]) && IsIntWord(fields[2])
    && IsIntWord(fields[3]) && IsIntWord(fields[4])
    && fields[5].Flag?
    && fields[6].Word? && 0 <= fields[6].value < TWO_TO_THE_64
  }

  /** `save_index_metadata`: seven fields in declaration order. */
  function EncodeMetadata(md: Metadata): (fields: seq<Field>)
    ensures WellFormed(fields)
    ensures fields[5] == Flag(md.allowReplaceDeleted)
  {
    [Word(md.dim), Word(md.maxElements), Word(md.m), Word(md.efConstruction), Word(md.ef),
     Flag(md.allowReplaceDeleted), Word(md.reservedSize)]
  }

  /** The file is 49 bytes long: six 8-byte fields and a 1-byte flag. */
  lemma {:induction false} EncodedWidth(md: Metadata)
    ensures TotalWidth(EncodeMetadata(md)) == 49
  {
    var f := EncodeMetadata(md);
    assert TotalWidth(f[7..]) == 0;
    assert TotalWidth(f[6..]) == 8 + TotalWidth(f[7..]);
    assert TotalWidth(f[5..]) == 1 + TotalWidth(f[6..]);
    assert TotalWidth(f[4..]) == 8 + TotalWidth(f[5..]);
    assert TotalWidth(f[3..]) == 8 + TotalWidth(f[4..]);
    assert TotalWidth(f[2..]) == 8 + TotalWidth(f[3..]);
    assert TotalWidth(f[1..]) == 8 + TotalWidth(f[2..]);
    assert TotalWidth(f) == 8 + TotalWidth(f[1..]);
  }

  /** `load_index_metadata`: reads the fields back in the order they were
      written; a file without that layout is refused. */
  function DecodeMetadata(fields: seq<Field>): (r: Result<Metadata, MetadataError>)
    ensures r.Success? <==> WellFormed(fields)
    ensures r.Success? ==> EncodeMetadata(r.value) == fields
  {
    if !WellFormed(fields) then Failure(MalformedMetadata)
    else Success(Metadata(fields[0].value, fields[1].value, fields[2].value, fields[3].value,
                          fields[4].value, fields[5].on, fields[6].value))
  }

  /** Installs a configuration read from the file into a store; the mappings
      are left as they were. */
  function WithMetadata(s: VectorStore, md: Metadata): (r: VectorStore)
    ensures MetadataOf(r) == md
    ensures r.idToLabel == s.idToLabel && r.labelToId == s.labelToId && r.nextLabel == s.nextLabel
  {
    s.(dim := md.dim, maxElements := md.maxElements, m := md.m, efConstruction := md.efConstruction,
       ef := md.ef, allowReplaceDeleted := md.allowReplaceDeleted, reservedSize := md.reservedSize)
  }

  /** Saving the metadata of `s` and loading it into any store gives that store
      the configuration of `s` without changing its mappings. */
  lemma MetadataRoundTrip(s: VectorStore, into: VectorStore)
    ensures DecodeMetadata(EncodeMetadata(MetadataOf(s))).Success?
    ensures var loaded := WithMetadata(into, DecodeMetadata(EncodeMetadata(MetadataOf(s))).value);
            SameConfig(s, loaded) && loaded.idToLabel == into.idToLabel &&
            loaded.labelToId == into.labelToId && loaded.nextLabel == into.nextLabel
  {
  }
}
