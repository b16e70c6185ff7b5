/** Ipv6DstCodec: registered for the Nicira NXM_1 class and field code 20 under
    the NXM_OF_IP_DST field. The header advertises a 16-octet value, but one
    32-bit value is what is written and read. */
module Ipv6DstCodec {
  import opened Wrappers
  import opened Bytes
  import opened ByteBufs
  import opened MatchEntries

  const VALUE_LENGTH: int := 16
  const NXM_FIELD_CODE: int := 20

  /** The entries this codec serializes; `intValue()` of the value keeps its
      low 32 bits, so the value must be a 32-bit one to survive. */
  predicate IsIpDstEntry(e: MatchEntry) {
    e.matchEntryValue.IpDstCaseValue? && IsU32(e.matchEntryValue.ipDst)
  }

  /** What `serialize` writes: the header, then one 32-bit value. */
  function Encoding(e: MatchEntry): (s: seq<Byte>)
    requires e.matchEntryValue.IpDstCaseValue?
    ensures |s| == HEADER_LENGTH + 4
    ensures s[3] >= VALUE_LENGTH > |s| - HEADER_LENGTH
  {
    NxmHeader(NXM_1_CLASS, NXM_FIELD_CODE, VALUE_LENGTH, e.hasMask) + Be32(Low32(e.matchEntryValue.ipDst))
  }

  method Serialize(input: MatchEntry, outBuffer: ByteBuf)
    requires input.matchEntryValue.IpDstCaseValue?
    modifies outBuffer`bytes
    ensures outBuffer.bytes == old(outBuffer.bytes) + Encoding(input)
  {
    WriteNxmHeader(NXM_1_CLASS, NXM_FIELD_CODE, VALUE_LENGTH, input.hasMask, outBuffer);
    outBuffer.WriteInt(input.matchEntryValue.ipDst);
  }

  /** `deserialize`: the header, then one unsigned 32-bit value. */
  method Deserialize(message: ByteBuf) returns (r: Result<MatchEntry>)
    requires message.Valid()
    modifies message`readerIndex
    ensures message.Valid()
    ensures r.Ok? <==> old(message.Readable()) >= HEADER_LENGTH + 4
    ensures r.Ok? ==>
      var p, s := old(message.readerIndex), message.bytes;
      && message.readerIndex == p + HEADER_LENGTH + 4
      && r.value == MatchEntry(Nxm1Class, NxmOfIpDst, HeaderHasMask(s, p),
                               IpDstCaseValue(FromBe32(s[p + HEADER_LENGTH..p + HEADER_LENGTH + 4])))
  {
    var hasMask :- ReadHeader(message);
    var value :- message.ReadUint32();
    return Ok(MatchEntry(Nxm1Class, NxmOfIpDst, hasMask, IpDstCaseValue(value)));
  }

  /** Serializing into an empty buffer and reading it back gives the entry's
      value and has-mask flag under this codec's class and field. */
  method RoundTrip(e: MatchEntry) returns (r: Result<MatchEntry>)
    requires IsIpDstEntry(e)
    ensures r == Ok(MatchEntry(Nxm1Class, NxmOfIpDst, e.hasMask, e.matchEntryValue))
  {
    var buffer := new ByteBuf.Wrap([]);
    Serialize(e, buffer);
    var s := Encoding(e);
    assert buffer.bytes == s;
    assert s[HEADER_LENGTH..HEADER_LENGTH + 4] == Be32(e.matchEntryValue.ipDst);
    assert s[..HEADER_LENGTH] == NxmHeader(NXM_1_CLASS, NXM_FIELD_CODE, VALUE_LENGTH, e.hasMask);
    r := Deserialize(buffer);
  }
}
