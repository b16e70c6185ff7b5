/** OxmArpOpDeserializer: the OXM_OF_ARP_OP entry (section A.2.3.7 of the
    OpenFlow Switch Specification 1.3), a header and a 16-bit opcode. */
module OxmArpOpDeserializer {
  import opened Wrappers
  import opened Bytes
  import opened ByteBufs
  import opened MatchEntries

  /** `OxmMatchConstants.ARP_OP`. */
  const ARP_OP: int := 21

  /** The entries this deserializer produces. */
  predicate IsArpOpEntry(e: MatchEntry) {
    && e.oxmClass == OpenflowBasicClass && e.oxmMatchField == ArpOp
    && e.matchEntryValue.ArpOpCase? && IsU16(e.matchEntryValue.opCode)
  }

  /** The wire form of such an entry: header, then the opcode. */
  function Layout(e: MatchEntry): (s: seq<Byte>)
    requires IsArpOpEntry(e)
    ensures |s| == HEADER_LENGTH + 2
  {
    Header(OPENFLOW_BASIC_CLASS, ARP_OP, e.hasMask, 2) + Be16(e.matchEntryValue.opCode)
  }

  /** `deserialize`: the header, then the opcode as an unsigned 16-bit value;
      no mask is read whatever the header says. */
  method Deserialize(input: ByteBuf) returns (r: Result<MatchEntry>)
    requires input.Valid()
    modifies input`readerIndex
    ensures input.Valid()
    ensures r.Ok? <==> old(input.Readable()) >= HEADER_LENGTH + 2
    ensures r.Ok? ==>
      var p, s := old(input.readerIndex), input.bytes;
      && input.readerIndex == p + HEADER_LENGTH + 2
      && r.value == MatchEntry(OpenflowBasicClass, ArpOp, HeaderHasMask(s, p),
                               ArpOpCase(FromBe16(s[p + HEADER_LENGTH..p + HEADER_LENGTH + 2])))
  {
    var hasMask :- ReadHeader(input);
    var opCode :- input.ReadUint16();
    return Ok(MatchEntry(OpenflowBasicClass, ArpOp, hasMask, ArpOpCase(opCode)));
  }

  /** Every ARP-op entry is read back from its own wire form. */
  method DecodeLayout(e: MatchEntry) returns (r: Result<MatchEntry>)
    requires IsArpOpEntry(e)
    ensures r == Ok(e)
  {
    var s := Layout(e);
    assert s[HEADER_LENGTH..HEADER_LENGTH + 2] == Be16(e.matchEntryValue.opCode);
    assert s[..HEADER_LENGTH] == Header(OPENFLOW_BASIC_CLASS, ARP_OP, e.hasMask, 2);
    var input := new ByteBuf.Wrap(s);
    r := Deserialize(input);
  }
}
