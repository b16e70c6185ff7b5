/** OxmTcpDstDeserializer: the OXM_OF_TCP_DST entry (section A.2.3.7 of the
    OpenFlow Switch Specification 1.3), a header and a 16-bit port. */
module OxmTcpDstDeserializer {
  import opened Wrappers
  import opened Bytes
  import opened ByteBufs
  import opened MatchEntries

  /** `OxmMatchConstants.TCP_DST`. */
  const TCP_DST: int := 14

  /** The entries this deserializer produces. */
  predicate IsTcpDstEntry(e: MatchEntry) {
    && e.oxmClass == OpenflowBasicClass && e.oxmMatchField == TcpDst
    && e.matchEntryValue.TcpDstCase? && IsU16(e.matchEntryValue.port)
  }

  /** The wire form of such an entry: header, then the port. */
  function Layout(e: MatchEntry): (s: seq<Byte>)
    requires IsTcpDstEntry(e)
    ensures |s| == HEADER_LENGTH + 2
  {
    Header(OPENFLOW_BASIC_CLASS, TCP_DST, e.hasMask, 2) + Be16(e.matchEntryValue.port)
  }

  /** `deserialize`: the header, then the port as an unsigned 16-bit value;
      no mask is read whatever the header says. */
  method Deserialize(input: ByteBuf) returns (r: Result<MatchEntry>)
    requires input.Valid()
    modifies input`readerIndex
    ensures input.Valid()
    ensures r.Ok? <==> old(input.Readable()) >= HEADER_LENGTH + 2
    ensures r.Ok? ==>
      var p, s := old(input.readerIndex), input.bytes;
      && input.readerIndex == p + HEADER_LENGTH + 2
      && r.value == MatchEntry(OpenflowBasicClass, TcpDst, HeaderHasMask(s, p),
                               TcpDstCase(FromBe16(s[p + HEADER_LENGTH..p + HEADER_LENGTH + 2])))
  {
    var hasMask :- ReadHeader(input);
    var port :- input.ReadUint16();
    return Ok(MatchEntry(OpenflowBasicClass, TcpDst, hasMask, TcpDstCase(port)));
  }

  /** Every TCP-destination entry is read back from its own wire form. */
  method DecodeLayout(e: MatchEntry) returns (r: Result<MatchEntry>)
    requires IsTcpDstEntry(e)
    ensures r == Ok(e)
  {
    var s := Layout(e);
    assert s[HEADER_LENGTH..HEADER_LENGTH + 2] == Be16(e.matchEntryValue.port);
    assert s[..HEADER_LENGTH] == Header(OPENFLOW_BASIC_CLASS, TCP_DST, e.hasMask, 2);
    var input := new ByteBuf.Wrap(s);
    r := Deserialize(input);
  }
}
