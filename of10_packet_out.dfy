/** OF10PacketOutInputMessageFactory: the body of an OpenFlow 1.0 packet-out
    (section 5.3.6 of the OpenFlow Switch Specification 1.0.0): after version,
    type and length come xid (4), buffer_id (4), in_port (2), actions_len (2),
    `actions_len` octets of actions and the packet data up to the end. */
module OF10PacketOutInputMessageFactory {
  import opened Wrappers
  import opened Bytes
  import opened ByteBufs

  /** `EncodeConstants.OF_VERSION_1_0`. */
  const OF_VERSION_1_0: int := 1

  /** Octets of the fixed part after the header's first four. */
  const FIXED_LENGTH: nat := 12

  datatype PacketOutInput<A> = PacketOutInput(version: int, xid: int, bufferId: int, inPort: int,
                                              actions: seq<A>, data: seq<Byte>)

  /** The octets handed to the action list deserializer: a negative length,
      which `readShort` can produce, reads no action. */
  function ActionsLength(actionsLen: int): nat {
    if actionsLen < 0 then 0 else actionsLen
  }

  /** A packet-out body that is long enough for its fixed part and actions. */
  predicate Complete(s: seq<Byte>, p: nat) {
    p + FIXED_LENGTH <= |s|
    && p + FIXED_LENGTH + ActionsLength(FromBe16Signed(s[p + 10..p + 12])) <= |s|
  }

  /** The fixed fields: xid, buffer_id, in_port and the signed actions_len. */
  method ReadFixed(rawMessage: ByteBuf) returns (r: Result<(int, int, int, int)>)
    requires rawMessage.Valid()
    modifies rawMessage`readerIndex
    ensures rawMessage.Valid()
    ensures var p, s := old(rawMessage.readerIndex), rawMessage.bytes;
      if p + FIXED_LENGTH <= |s| then
        && r == Ok((FromBe32(s[p..p + 4]), FromBe32(s[p + 4..p + 8]), FromBe16(s[p + 8..p + 10]),
                    FromBe16Signed(s[p + 10..p + 12])))
        && rawMessage.readerIndex == p + FIXED_LENGTH
      else r == Err(IndexOutOfBounds)
  {
    var xid :- rawMessage.ReadUint32();
    var bufferId :- rawMessage.ReadUint32();
    var inPort :- rawMessage.ReadUint16();
    var actionsLen :- rawMessage.ReadShort();
    return Ok((xid, bufferId, inPort, actionsLen));
  }

  /** What `deserialize` makes of the body at `p`: the fixed fields, the
      actions parsed from the `actions_len` octets after them, and the rest as
      data. A body too short for either part is out of bounds. */
  function ParseAt<A>(s: seq<Byte>, p: nat, deserializeList: seq<Byte> -> seq<A>): (r: Result<PacketOutInput<A>>)
    ensures r.Ok? <==> Complete(s, p)
    ensures r.Err? ==> r.error == IndexOutOfBounds
  {
    if !Complete(s, p) then Err(IndexOutOfBounds)
    else
      var a := p + FIXED_LENGTH + ActionsLength(FromBe16Signed(s[p + 10..p + 12]));
      Ok(PacketOutInput(OF_VERSION_1_0, FromBe32(s[p..p + 4]), FromBe32(s[p + 4..p + 8]),
                        FromBe16(s[p + 8..p + 10]), deserializeList(s[p + FIXED_LENGTH..a]), s[a..]))
  }

  /** `deserialize`. The registry-driven `ListDeserializer` is the parameter
      `deserializeList`, applied to the octets it is given. A body read in
      full leaves nothing unread. */
  method Deserialize<A>(rawMessage: ByteBuf, deserializeList: seq<Byte> -> seq<A>)
    returns (r: Result<PacketOutInput<A>>)
    requires rawMessage.Valid()
    modifies rawMessage`readerIndex
    ensures rawMessage.Valid()
    ensures r == ParseAt(rawMessage.bytes, old(rawMessage.readerIndex), deserializeList)
    ensures r.Ok? ==> rawMessage.readerIndex == |rawMessage.bytes|
  {
    ghost var p, s := rawMessage.readerIndex, rawMessage.bytes;
    var fixed :- ReadFixed(rawMessage);
    var (xid, bufferId, inPort, actionsLen) := fixed;
    assert p + FIXED_LENGTH <= |s| && rawMessage.bytes == s;
    assert actionsLen == FromBe16Signed(s[p + 10..p + 12]) && rawMessage.readerIndex == p + FIXED_LENGTH;
    var actionBytes :- rawMessage.ReadBytes(ActionsLength(actionsLen));
    ghost var a := p + FIXED_LENGTH + ActionsLength(actionsLen);
    assert Complete(s, p) && actionBytes == s[p + FIXED_LENGTH..a] && rawMessage.readerIndex == a;
    assert s[a..a + (|s| - a)] == s[a..];
    var data := rawMessage.ReadBytes(rawMessage.Readable());
    assert data == Ok(s[a..]);
    return Ok(PacketOutInput(OF_VERSION_1_0, xid, bufferId, inPort, deserializeList(actionBytes), data.value));
  }

  /** The wire form of a packet-out body whose actions encode to `actionBytes`. */
  function Layout(xid: int, bufferId: int, inPort: int, actionBytes: seq<Byte>, data: seq<Byte>): (s: seq<Byte>)
    requires IsU32(xid) && IsU32(bufferId) && IsU16(inPort) && |actionBytes| < 0x8000
    ensures |s| == FIXED_LENGTH + |actionBytes| + |data|
  {
    Be32(xid) + Be32(bufferId) + Be16(inPort) + Be16(|actionBytes|) + actionBytes + data
  }

  /** Reading a packet-out body gives back its fields, the actions parsed from
      exactly their own octets, and the data. */
  method DecodeLayout<A>(xid: int, bufferId: int, inPort: int, actionBytes: seq<Byte>, data: seq<Byte>,
                         deserializeList: seq<Byte> -> seq<A>)
    returns (r: Result<PacketOutInput<A>>)
    requires IsU32(xid) && IsU32(bufferId) && IsU16(inPort) && |actionBytes| < 0x8000
    ensures r == Ok(PacketOutInput(OF_VERSION_1_0, xid, bufferId, inPort, deserializeList(actionBytes), data))
  {
    var s := Layout(xid, bufferId, inPort, actionBytes, data);
    assert s[..4] == Be32(xid);
    assert s[4..8] == Be32(bufferId);
    assert s[8..10] == Be16(inPort);
    assert s[10..12] == Be16(|actionBytes|);
    assert s[FIXED_LENGTH..FIXED_LENGTH + |actionBytes|] == actionBytes;
    assert s[FIXED_LENGTH + |actionBytes|..] == data;
    var rawMessage := new ByteBuf.Wrap(s);
    r := Deserialize(rawMessage, deserializeList);
  }
}
