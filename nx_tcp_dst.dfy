/** TcpDstCodec: the Nicira NXM_OF_TCP_DST match entry, a header followed by a
    16-bit port and a 16-bit mask. */
module TcpDstCodec {
  import opened Wrappers
  import opened Bytes
  import opened ByteBufs
  import opened MatchEntries

  const VALUE_LENGTH: int := 2
  const NXM_FIELD_CODE: int := 10

  /** The entries this codec serializes. */
  predicate IsTcpDstEntry(e: MatchEntry) {
    && e.matchEntryValue.TcpDstCaseValue?
    && IsU16(e.matchEntryValue.tcpDstPort) && IsU16(e.matchEntryValue.tcpDstMask)
  }

  /** What `serialize` writes: the header, the port, the mask. The mask is
      written whether or not the entry says it has one. */
  function Encoding(e: MatchEntry): (s: seq<Byte>)
    requires IsTcpDstEntry(e)
    ensures |s| == HEADER_LENGTH + 4
  {
    NxmHeader(NXM_0_CLASS, NXM_FIELD_CODE, VALUE_LENGTH, e.hasMask)
      + Be16(e.matchEntryValue.tcpDstPort) + Be16(e.matchEntryValue.tcpDstMask)
  }

  method Serialize(input: MatchEntry, outBuffer: ByteBuf)
    requires IsTcpDstEntry(input)
    modifies outBuffer`bytes
    ensures outBuffer.bytes == old(outBuffer.bytes) + Encoding(input)
  {
    WriteNxmHeader(NXM_0_CLASS, NXM_FIELD_CODE, VALUE_LENGTH, input.hasMask, outBuffer);
    outBuffer.WriteShort(input.matchEntryValue.tcpDstPort);
    outBuffer.WriteShort(input.matchEntryValue.tcpDstMask);
  }

  /** `deserialize`: the header, then port and mask as unsigned 16-bit values.
      The entry always says it has a mask, whatever the header's bit. */
  method Deserialize(message: ByteBuf) returns (r: Result<MatchEntry>)
    requires message.Valid()
    modifies message`readerIndex
    ensures message.Valid()
    ensures r.Ok? <==> old(message.Readable()) >= HEADER_LENGTH + 4
    ensures r.Ok? ==>
      var v, s := old(message.readerIndex) + HEADER_LENGTH, message.bytes;
      && message.readerIndex == v + 4
      && r.value == MatchEntry(Nxm0Class, NxmOfTcpDst, true,
                               TcpDstCaseValue(FromBe16(s[v..v + 2]), FromBe16(s[v + 2..v + 4])))
  {
    var _ :- ReadHeader(message);
    var port :- message.ReadUint16();
    var mask :- message.ReadUint16();
    return Ok(MatchEntry(Nxm0Class, NxmOfTcpDst, true, TcpDstCaseValue(port, mask)));
  }

  /** Serializing into an empty buffer and reading it back gives the entry's
      port and mask under this codec's class and field, with has-mask set. */
  method RoundTrip(e: MatchEntry) returns (r: Result<MatchEntry>)
    requires IsTcpDstEntry(e)
    ensures r == Ok(MatchEntry(Nxm0Class, NxmOfTcpDst, true, e.matchEntryValue))
  {
    var buffer := new ByteBuf.Wrap([]);
    Serialize(e, buffer);
    var s := Encoding(e);
    assert buffer.bytes == s;
    assert s[HEADER_LENGTH..HEADER_LENGTH + 2] == Be16(e.matchEntryValue.tcpDstPort);
    assert s[HEADER_LENGTH + 2..HEADER_LENGTH + 4] == Be16(e.matchEntryValue.tcpDstMask);
    r := Deserialize(buffer);
  }
}
