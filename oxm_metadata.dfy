/** OxmMetadataDeserializer: the OXM_OF_METADATA entry (section A.2.3.7 of the
    OpenFlow Switch Specification 1.3): a header, 8 octets of metadata and, when
    the header's has-mask bit is set, an 8-octet mask. */
module OxmMetadataDeserializer {
  import opened Wrappers
  import opened Bytes
  import opened ByteBufs
  import opened MatchEntries

  /** `OxmMatchConstants.METADATA`. */
  const METADATA: int := 2

  /** `Long.BYTES`, the width of the metadata and of its mask. */
  const METADATA_LENGTH: nat := 8

  /** The octets an entry occupies, given its has-mask flag. */
  function EntryLength(hasMask: bool): nat {
    HEADER_LENGTH + METADATA_LENGTH + (if hasMask then METADATA_LENGTH else 0)
  }

  /** The entries this deserializer produces: a mask exactly when has-mask. */
  predicate IsMetadataEntry(e: MatchEntry) {
    && e.oxmClass == OpenflowBasicClass && e.oxmMatchField == Metadata
    && e.matchEntryValue.MetadataCase?
    && |e.matchEntryValue.metadata| == METADATA_LENGTH
    && (e.matchEntryValue.mask.Some? <==> e.hasMask)
    && (e.hasMask ==> |e.matchEntryValue.mask.value| == METADATA_LENGTH)
  }

  /** The wire form of such an entry. */
  function Layout(e: MatchEntry): (s: seq<Byte>)
    requires IsMetadataEntry(e)
    ensures |s| == EntryLength(e.hasMask)
  {
    Header(OPENFLOW_BASIC_CLASS, METADATA, e.hasMask, EntryLength(e.hasMask) - HEADER_LENGTH)
      + e.matchEntryValue.metadata
      + (if e.hasMask then e.matchEntryValue.mask.value else [])
  }

  /** `deserialize` and `addMetadataValue`: the metadata is copied verbatim,
      and the mask is taken only when the header's has-mask bit is set. */
  method Deserialize(input: ByteBuf) returns (r: Result<MatchEntry>)
    requires input.Valid()
    modifies input`readerIndex
    ensures input.Valid()
    ensures r.Ok? <==>
      old(input.Readable()) >= HEADER_LENGTH
      && old(input.Readable()) >= EntryLength(HeaderHasMask(input.bytes, old(input.readerIndex)))
    ensures r.Ok? ==>
      var p, s := old(input.readerIndex), input.bytes;
      var m := HeaderHasMask(s, p);
      var v := p + HEADER_LENGTH;
      && input.readerIndex == p + EntryLength(m)
      && r.value == MatchEntry(OpenflowBasicClass, Metadata, m,
           MetadataCase(s[v..v + METADATA_LENGTH],
                        if m then Some(s[v + METADATA_LENGTH..v + 2 * METADATA_LENGTH]) else None))
  {
    var hasMask :- ReadHeader(input);
    var metadata :- input.ReadBytes(METADATA_LENGTH);
    var mask: Option<seq<Byte>> := None;
    if hasMask {
      var m :- input.ReadBytes(METADATA_LENGTH);
      mask := Some(m);
    }
    return Ok(MatchEntry(OpenflowBasicClass, Metadata, hasMask, MetadataCase(metadata, mask)));
  }

  /** Every metadata entry is read back from its own wire form. */
  method DecodeLayout(e: MatchEntry) returns (r: Result<MatchEntry>)
    requires IsMetadataEntry(e)
    ensures r == Ok(e)
  {
    var s := Layout(e);
    var h := Header(OPENFLOW_BASIC_CLASS, METADATA, e.hasMask, EntryLength(e.hasMask) - HEADER_LENGTH);
    assert s[..HEADER_LENGTH] == h;
    assert s[HEADER_LENGTH..HEADER_LENGTH + METADATA_LENGTH] == e.matchEntryValue.metadata;
    if e.hasMask {
      assert s[HEADER_LENGTH + METADATA_LENGTH..HEADER_LENGTH + 2 * METADATA_LENGTH] == e.matchEntryValue.mask.value;
    }
    var input := new ByteBuf.Wrap(s);
    r := Deserialize(input);
  }
}
