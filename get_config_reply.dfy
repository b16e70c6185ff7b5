/** GetConfigReplyMessageFactory: the body of an OpenFlow switch-config reply
    (section A.3.2 of the OpenFlow Switch Specification 1.3): after the header's
    version, type and length come xid (4), flags (2) and miss_send_len (2). */
module GetConfigReplyMessageFactory {
  import opened Wrappers
  import opened Bytes
  import opened ByteBufs

  /** `SwitchConfigFlag`: the fragment-handling values of `ofp_config_flags`. */
  datatype SwitchConfigFlag = FragNormal | OfpcFragDrop | OfpcFragReasm | OfpcFragMask

  /** The wire value of each flag. */
  function FlagValue(f: SwitchConfigFlag): (v: int)
    ensures 0 <= v < 4
    ensures ForValue(v) == Some(f)
  {
    match f
    case FragNormal => 0
    case OfpcFragDrop => 1
    case OfpcFragReasm => 2
    case OfpcFragMask => 3
  }

  /** `SwitchConfigFlag.forValue`: a value outside the enumeration yields null. */
  function ForValue(v: int): (f: Option<SwitchConfigFlag>)
    ensures f.Some? <==> 0 <= v < 4
  {
    if v == 0 then Some(FragNormal)
    else if v == 1 then Some(OfpcFragDrop)
    else if v == 2 then Some(OfpcFragReasm)
    else if v == 3 then Some(OfpcFragMask)
    else None
  }

  /** `GetConfigOutput`; `flags` is None where `forValue` returned null. */
  datatype GetConfigOutput = GetConfigOutput(version: int, xid: int, flags: Option<SwitchConfigFlag>, missSendLen: int)

  /** The eight body octets of a reply whose flags are a known value. */
  function Layout(m: GetConfigOutput): (s: seq<Byte>)
    requires IsU32(m.xid) && m.flags.Some? && IsU16(m.missSendLen)
    ensures |s| == 8
  {
    Be32(m.xid) + Be16(FlagValue(m.flags.value)) + Be16(m.missSendLen)
  }

  /** `deserialize`, for a factory whose assigned version is `version`. */
  method Deserialize(version: int, rawMessage: ByteBuf) returns (r: Result<GetConfigOutput>)
    requires rawMessage.Valid()
    modifies rawMessage`readerIndex
    ensures rawMessage.Valid()
    ensures r.Ok? <==> old(rawMessage.Readable()) >= 8
    ensures r.Ok? ==>
      var p, s := old(rawMessage.readerIndex), rawMessage.bytes;
      && r.value.version == version
      && rawMessage.readerIndex == p + 8
      && r.value.xid == FromBe32(s[p..p + 4])
      && r.value.flags == ForValue(FromBe16(s[p + 4..p + 6]))
      && r.value.missSendLen == FromBe16(s[p + 6..p + 8])
  {
    var xid :- rawMessage.ReadUint32();
    var flags :- rawMessage.ReadUint16();
    var missSendLen :- rawMessage.ReadUint16();
    return Ok(GetConfigOutput(version, xid, ForValue(flags), missSendLen));
  }

  /** A reply with known flags decodes from its layout to itself. This is the
      only decoding of it, since `Deserialize` is defined field by field above. */
  lemma {:induction false} LayoutDecodes(m: GetConfigOutput)
    requires IsU32(m.xid) && m.flags.Some? && IsU16(m.missSendLen)
    ensures var s := Layout(m);
      && FromBe32(s[0..4]) == m.xid
      && ForValue(FromBe16(s[4..6])) == m.flags
      && FromBe16(s[6..8]) == m.missSendLen
  {
    var a, b, c := Be32(m.xid), Be16(FlagValue(m.flags.value)), Be16(m.missSendLen);
    var s := Layout(m);
    assert s == (a + b) + c && |a + b| == 6;
    assert (a + b)[0..4] == a && (a + b)[4..6] == b;
    assert s[0..6] == a + b && s[6..8] == c;
    assert s[0..4] == (a + b)[0..4] && s[4..6] == (a + b)[4..6];
  }
}
