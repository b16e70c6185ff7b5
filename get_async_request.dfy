/** GetAsyncRequestMessageFactory: the OpenFlow 1.3 get-async request
    (section A.3.10 of the OpenFlow Switch Specification 1.3) is a bare header.
    The factory is handed the buffer after version, type and length, so the
    only thing left to read is the transaction id. */
module GetAsyncRequestMessageFactory {
  import opened Wrappers
  import opened Bytes
  import opened ByteBufs

  /** `EncodeConstants.OF_VERSION_1_3`, the wire version number of OpenFlow 1.3. */
  const OF_VERSION_1_3: int := 4

  /** `GetAsyncInput`: nothing but the header fields. */
  datatype GetAsyncInput = GetAsyncInput(version: int, xid: int)

  method Deserialize(rawMessage: ByteBuf) returns (r: Result<GetAsyncInput>)
    requires rawMessage.Valid()
    modifies rawMessage`readerIndex
    ensures rawMessage.Valid()
    ensures r.Ok? <==> old(rawMessage.Readable()) >= 4
    ensures r.Ok? ==>
      && r.value.version == OF_VERSION_1_3
      && IsU32(r.value.xid)
      && rawMessage.readerIndex == old(rawMessage.readerIndex) + 4
      && Be32(r.value.xid) == rawMessage.bytes[old(rawMessage.readerIndex)..rawMessage.readerIndex]
  {
    var xid :- rawMessage.ReadUint32();
    Be32OfFromBe32(rawMessage.bytes[rawMessage.readerIndex - 4..rawMessage.readerIndex]);
    return Ok(GetAsyncInput(OF_VERSION_1_3, xid));
  }
}
