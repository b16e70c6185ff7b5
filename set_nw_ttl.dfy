/** OF13SetNwTtlActionDeserializer: the OFPAT_SET_NW_TTL action (section
    A.2.5 of the OpenFlow Switch Specification 1.3): type (2), length (2),
    nw_ttl (1) and three octets of padding. */
module OF13SetNwTtlActionDeserializer {
  import opened Wrappers
  import opened Bytes
  import opened ByteBufs

  /** `ActionConstants.SET_NW_TTL_PADDING`. */
  const SET_NW_TTL_PADDING: nat := 3

  /** `OFPAT_SET_NW_TTL` and the action's length, 8. */
  const OFPAT_SET_NW_TTL: int := 23
  const ACTION_LENGTH: nat := 8

  datatype Action = SetNwTtlCase(nwTtl: int)

  /** The wire form of a set-nw-ttl action. */
  function Layout(a: Action): (s: seq<Byte>)
    requires IsU8(a.nwTtl)
    ensures |s| == ACTION_LENGTH
  {
    Be16(OFPAT_SET_NW_TTL) + Be16(ACTION_LENGTH) + [a.nwTtl as Byte] + Zeros(SET_NW_TTL_PADDING)
  }

  /** `deserialize`: skips type and length, reads the TTL as an unsigned octet
      and skips the padding. */
  method Deserialize(input: ByteBuf) returns (r: Result<Action>)
    requires input.Valid()
    modifies input`readerIndex
    ensures input.Valid()
    ensures r.Ok? <==> old(input.Readable()) >= ACTION_LENGTH
    ensures r.Ok? ==>
      && input.readerIndex == old(input.readerIndex) + ACTION_LENGTH
      && r.value == SetNwTtlCase(input.bytes[old(input.readerIndex) + 4])
      && IsU8(r.value.nwTtl)
  {
    var _ :- input.SkipBytes(2 * 2);
    var ttl :- input.ReadUint8();
    var _ :- input.SkipBytes(SET_NW_TTL_PADDING);
    return Ok(SetNwTtlCase(ttl));
  }

  /** Every set-nw-ttl action is read back from its own wire form. */
  method DecodeLayout(a: Action) returns (r: Result<Action>)
    requires IsU8(a.nwTtl)
    ensures r == Ok(a)
  {
    var s := Layout(a);
    assert s[4] == a.nwTtl;
    var input := new ByteBuf.Wrap(s);
    r := Deserialize(input);
  }
}
