/** The 10-octet header of a Nicira vendor action as `serializeHeader` of the
    abstract action codec writes it:

      experimenter type 0xFFFF (2) | length (2) | vendor id 0x00002320 (4) | subtype (2) */
module NxActionHeader {
  import opened Bytes
  import opened ByteBufs

  /** `EncodeConstants.EXPERIMENTER_VALUE`. */
  const EXPERIMENTER_VALUE: int := 0xFFFF

  /** `NiciraConstants.NX_VENDOR_ID`. */
  const NX_VENDOR_ID: int := 0x2320

  const HEADER_LENGTH: nat := 10

  /** The header for a length and a subtype; `writeShort` keeps the length's low
      16 bits. */
  function Header(length: int, subtype: int): (s: seq<Byte>)
    requires IsU16(subtype)
    ensures |s| == HEADER_LENGTH
    ensures FromBe16(s[..2]) == EXPERIMENTER_VALUE
    ensures FromBe16Signed(s[2..4]) == Signed16(length)
  {
    var s := Be16(EXPERIMENTER_VALUE) + Be16(Low16(length)) + Be32(NX_VENDOR_ID) + Be16(subtype);
    assert s[..2] == Be16(EXPERIMENTER_VALUE) && s[2..4] == Be16(Low16(length));
    s
  }

  method SerializeHeader(length: int, subtype: int, outBuffer: ByteBuf)
    requires IsU16(subtype)
    modifies outBuffer`bytes
    ensures outBuffer.bytes == old(outBuffer.bytes) + Header(length, subtype)
  {
    outBuffer.WriteShort(EXPERIMENTER_VALUE);
    outBuffer.WriteShort(length);
    outBuffer.WriteInt(NX_VENDOR_ID);
    outBuffer.WriteShort(subtype);
  }
}
