/** Match entries (section A.2.3 of the OpenFlow Switch Specification 1.3, and
    the Nicira NXM entries that reuse its layout) and the 4-octet entry header
    that the abstract base deserializers and codecs read and write:

      class (2) | field << 1 | has-mask (1) | value length (1)

    A reader takes the class and field from the deserializer's own constants,
    the has-mask flag from bit 0 of the third octet, and skips the rest. */
module MatchEntries {
  import opened Wrappers
  import opened Bytes
  import opened ByteBufs

  /** The OXM classes of the entries in this model. */
  datatype OxmClass = OpenflowBasicClass | Nxm0Class | Nxm1Class

  /** The match fields of the entries in this model. */
  datatype MatchField = Metadata | ArpOp | TcpDst | NxmOfTcpDst | NxmOfIpDst

  /** The value cases of the entries in this model. */
  datatype MatchEntryValue =
    | MetadataCase(metadata: seq<Byte>, mask: Option<seq<Byte>>)
    | ArpOpCase(opCode: int)
    | TcpDstCase(port: int)
    | TcpDstCaseValue(tcpDstPort: int, tcpDstMask: int)
    | IpDstCaseValue(ipDst: int)

  datatype MatchEntry = MatchEntry(oxmClass: OxmClass, oxmMatchField: MatchField, hasMask: bool,
                                   matchEntryValue: MatchEntryValue)

  /** `OxmMatchConstants.OPENFLOW_BASIC_CLASS`, `NXM_0_CLASS` and `NXM_1_CLASS`. */
  const OPENFLOW_BASIC_CLASS: int := 0x8000
  const NXM_0_CLASS: int := 0x0000
  const NXM_1_CLASS: int := 0x0001

  /** Octets of the entry header. */
  const HEADER_LENGTH: nat := 4

  /** Bit 0 of the field-and-mask octet. */
  predicate MaskBit(fieldAndMask: Byte) {
    fieldAndMask % 2 == 1
  }

  /** The has-mask flag of the entry header that starts at `p`. */
  predicate HeaderHasMask(s: seq<Byte>, p: nat)
    requires p + HEADER_LENGTH <= |s|
  {
    MaskBit(s[p + 2])
  }

  /** The entry header for a class, a field code, the has-mask flag and the
      advertised value length. */
  function Header(classCode: int, fieldCode: int, hasMask: bool, length: int): (s: seq<Byte>)
    requires IsU16(classCode) && 0 <= fieldCode < 0x80 && IsU8(length)
    ensures |s| == HEADER_LENGTH
    ensures FromBe16(s[..2]) == classCode && s[2] / 2 == fieldCode && s[3] == length
    ensures HeaderHasMask(s, 0) == hasMask
  {
    assert (Be16(classCode) + [fieldCode * 2 + (if hasMask then 1 else 0), length])[..2] == Be16(classCode);
    Be16(classCode) + [fieldCode * 2 + (if hasMask then 1 else 0), length]
  }

  /** `processHeader`: skips the class, reads the field-and-mask octet, skips
      the length, and returns the has-mask flag. */
  method ReadHeader(input: ByteBuf) returns (r: Result<bool>)
    requires input.Valid()
    modifies input`readerIndex
    ensures input.Valid()
    ensures r.Ok? <==> old(input.Readable()) >= HEADER_LENGTH
    ensures r.Ok? ==>
      && input.readerIndex == old(input.readerIndex) + HEADER_LENGTH
      && r.value == HeaderHasMask(input.bytes, old(input.readerIndex))
  {
    var _ :- input.SkipBytes(2);
    var fieldAndMask :- input.ReadUint8();
    var _ :- input.SkipBytes(1);
    return Ok(fieldAndMask % 2 == 1);
  }

  /** `AbstractMatchCodec.serializeHeader`: the value length is doubled when a
      mask follows the value. */
  function NxmHeader(classCode: int, fieldCode: int, valueLength: int, hasMask: bool): (s: seq<Byte>)
    requires IsU16(classCode) && 0 <= fieldCode < 0x80 && 0 <= valueLength < 0x80
    ensures |s| == HEADER_LENGTH && HeaderHasMask(s, 0) == hasMask
    ensures s[3] == if hasMask then 2 * valueLength else valueLength
  {
    Header(classCode, fieldCode, hasMask, if hasMask then 2 * valueLength else valueLength)
  }

  method WriteNxmHeader(classCode: int, fieldCode: int, valueLength: int, hasMask: bool, outBuffer: ByteBuf)
    requires IsU16(classCode) && 0 <= fieldCode < 0x80 && 0 <= valueLength < 0x80
    modifies outBuffer`bytes
    ensures outBuffer.bytes == old(outBuffer.bytes) + NxmHeader(classCode, fieldCode, valueLength, hasMask)
  {
    var h := NxmHeader(classCode, fieldCode, valueLength, hasMask);
    outBuffer.WriteShort(classCode);
    outBuffer.WriteByte(fieldCode * 2 + (if hasMask then 1 else 0));
    outBuffer.WriteByte(if hasMask then 2 * valueLength else valueLength);
    assert h == Be16(classCode) + [h[2], h[3]];
  }
}
