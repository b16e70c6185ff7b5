/** LearnCodec: the Nicira learn action (NXAST_LEARN, subtype 16). The codec
    itself only frames the action: it pads the length that `LearnCodecUtil`
    computes up to a multiple of 8, writes the Nicira header with it, lets the
    utility write the learn header and the flow-mod specs, and appends the
    padding. Reading it back, it hands the utility what is left of the header
    length after the 32 header octets.

    `LearnCodecUtil` is not part of this model: what it writes for an action
    (the learn header and the flow-mod specs) and the length it computes are
    inputs, and on the reading side the learn header is taken as the 22 octets
    after the Nicira header. */
module LearnCodec {
  import opened Wrappers
  import opened Bytes
  import opened ByteBufs
  import NxActionHeader

  const NXAST_LEARN_SUBTYPE: int := 16

  /** The codec pads to a multiple of `MUL_LENGTH`. */
  const MUL_LENGTH: nat := 8

  /** `LearnCodecUtil.HEADER_LENGTH`: the Nicira header and the learn header. */
  const HEADER_LENGTH: nat := 32

  /** The learn header that follows the Nicira header. */
  const LEARN_HEADER_LENGTH: nat := HEADER_LENGTH - NxActionHeader.HEADER_LENGTH

  // ---------------------------------------------------------------- padding

  /** `lengthMod` of `serialize`: nothing for an aligned length, else the
      octets up to the next multiple of 8. */
  function Pad(length: nat): (pad: nat)
    ensures pad < MUL_LENGTH
  {
    var lengthMod := length % MUL_LENGTH;
    if lengthMod != 0 then MUL_LENGTH - lengthMod else 0
  }

  /** The padded length is a multiple of 8, less than 8 above the length, and
      equal to it exactly when the length is already aligned. */
  lemma PadAligns(length: nat)
    ensures (length + Pad(length)) % MUL_LENGTH == 0
    ensures length <= length + Pad(length) < length + MUL_LENGTH
    ensures Pad(length) == 0 <==> length % MUL_LENGTH == 0
  {
  }

  /** The pad is the least number of octets that aligns the length. */
  lemma PadIsLeast(length: nat, k: nat)
    requires (length + k) % MUL_LENGTH == 0
    ensures Pad(length) <= k
  {
    var m := length % MUL_LENGTH;
    if m != 0 && k < MUL_LENGTH - m {
      assert false;
    }
  }

  // -------------------------------------------------------------- serializer

  /** What `serialize` writes for an action for which `LearnCodecUtil` computes
      `length` and writes `learnHeader` and then `flowMods`. */
  function Encoding(learnHeader: seq<Byte>, flowMods: seq<Byte>, length: nat): seq<Byte> {
    NxActionHeader.Header(length + Pad(length), NXAST_LEARN_SUBTYPE) + learnHeader + flowMods
      + Zeros(Pad(length))
  }

  /** `serialize`. */
  method Serialize(learnHeader: seq<Byte>, flowMods: seq<Byte>, length: nat, outBuffer: ByteBuf)
    modifies outBuffer`bytes
    ensures outBuffer.bytes == old(outBuffer.bytes) + Encoding(learnHeader, flowMods, length)
  {
    var lengthMod := length % MUL_LENGTH;
    if lengthMod != 0 {
      lengthMod := MUL_LENGTH - lengthMod;
    }
    NxActionHeader.SerializeHeader(length + lengthMod, NXAST_LEARN_SUBTYPE, outBuffer);
    outBuffer.WriteBytes(learnHeader);
    outBuffer.WriteBytes(flowMods);
    if lengthMod != 0 {
      outBuffer.WriteZero(lengthMod);
    } else {
      assert Zeros(0) == [];
    }
  }

  /** When the computed length counts the octets written before the padding,
      the action fills exactly the padded length its header announces, a
      multiple of 8, with `Pad(length)` zero octets at its end. */
  lemma EncodingLength(learnHeader: seq<Byte>, flowMods: seq<Byte>, length: nat)
    requires length == NxActionHeader.HEADER_LENGTH + |learnHeader| + |flowMods|
    ensures var e := Encoding(learnHeader, flowMods, length);
      && |e| == length + Pad(length)
      && |e| % MUL_LENGTH == 0
      && e[length..] == Zeros(Pad(length))
  {
    PadAligns(length);
    var e := Encoding(learnHeader, flowMods, length);
    var h := NxActionHeader.Header(length + Pad(length), NXAST_LEARN_SUBTYPE);
    assert e == (h + learnHeader + flowMods) + Zeros(Pad(length));
  }

  // ------------------------------------------------------------------ parser

  /** The action as `deserialize` leaves it for `buildFlowModSpecs`: the
      experimenter id, the learn header's octets and the length handed on to
      the flow-mod specs. */
  datatype LearnRead = ActionLearn(experimenterId: int, learnHeader: seq<Byte>, flowModSpecsLength: int)

  /** `deserialize` at `p`, up to the flow-mod specs. `length -= HEADER_LENGTH`
      on a `short` keeps the low 16 bits of the difference. */
  function ParseAt(s: seq<Byte>, p: nat): (r: Result<(LearnRead, nat)>)
    ensures r.Ok? <==> p + HEADER_LENGTH <= |s|
    ensures r.Ok? ==> && r.value.1 == p + HEADER_LENGTH
                      && r.value.0.experimenterId == NxActionHeader.NX_VENDOR_ID
                      && |r.value.0.learnHeader| == HEADER_LENGTH - NxActionHeader.HEADER_LENGTH
                      && -0x8000 <= r.value.0.flowModSpecsLength < 0x8000
  {
    if p + HEADER_LENGTH > |s| then Err(IndexOutOfBounds)
    else
      var length := FromBe16Signed(s[p + 2..p + 4]);
      Ok((ActionLearn(NxActionHeader.NX_VENDOR_ID, s[p + NxActionHeader.HEADER_LENGTH..p + HEADER_LENGTH],
                      Signed16(length - HEADER_LENGTH)),
          p + HEADER_LENGTH))
  }

  /** `LearnCodecUtil.deserializeHeader`, read as the Nicira header: type (2),
      the signed length, vendor id (4) and subtype (2). */
  method DeserializeHeader(message: ByteBuf) returns (r: Result<int>)
    requires message.Valid()
    modifies message`readerIndex
    ensures message.Valid()
    ensures if old(message.Readable()) >= NxActionHeader.HEADER_LENGTH
      then r == Ok(FromBe16Signed(message.bytes[old(message.readerIndex) + 2..old(message.readerIndex) + 4]))
        && message.readerIndex == old(message.readerIndex) + NxActionHeader.HEADER_LENGTH
      else r == Err(IndexOutOfBounds)
  {
    var _ :- message.SkipBytes(2);
    var length :- message.ReadShort();
    var _ :- message.SkipBytes(6);
    return Ok(length);
  }

  /** `deserialize`, up to the call of `buildFlowModSpecs`. */
  method Deserialize(message: ByteBuf) returns (r: Result<LearnRead>)
    requires message.Valid()
    modifies message`readerIndex
    ensures message.Valid()
    ensures WithEnd(r, message.readerIndex) == ParseAt(message.bytes, old(message.readerIndex))
  {
    var length :- DeserializeHeader(message);
    var learnHeader :- message.ReadBytes(LEARN_HEADER_LENGTH);
    length := Signed16(length - HEADER_LENGTH);
    return Ok(ActionLearn(NxActionHeader.NX_VENDOR_ID, learnHeader, length));
  }

  // -------------------------------------------------------------- round trip

  /** Where an action is written, its header announces the padded length and
      the learn header follows the Nicira header. */
  lemma EncodingPartsAt(s: seq<Byte>, p: nat, learnHeader: seq<Byte>, flowMods: seq<Byte>, length: nat)
    requires |learnHeader| == LEARN_HEADER_LENGTH
    requires length + Pad(length) < 0x8000
    requires At(s, p, Encoding(learnHeader, flowMods, length))
    ensures p + HEADER_LENGTH <= |s|
    ensures FromBe16Signed(s[p + 2..p + 4]) == length + Pad(length)
    ensures s[p + NxActionHeader.HEADER_LENGTH..p + HEADER_LENGTH] == learnHeader
  {
    var pad := Pad(length);
    var h := NxActionHeader.Header(length + pad, NXAST_LEARN_SUBTYPE);
    var rest := learnHeader + (flowMods + Zeros(pad));
    assert Encoding(learnHeader, flowMods, length) == h + rest;
    AtSplit(s, p, h, rest);
    AtSplit(s, p + NxActionHeader.HEADER_LENGTH, learnHeader, flowMods + Zeros(pad));
    AtSlice(s, p, h, 2, 4);
    AtWindow(s, p + NxActionHeader.HEADER_LENGTH, learnHeader);
    Signed16OfShort(length + pad);
  }

  /** A header that announces `total` octets, at least the 32 header octets,
      reads back with `total - 32` octets left for the flow-mod specs. */
  lemma PartsReadBack(s: seq<Byte>, p: nat, learnHeader: seq<Byte>, total: int, window: int)
    requires p + HEADER_LENGTH <= |s|
    requires FromBe16Signed(s[p + 2..p + 4]) == total && HEADER_LENGTH <= total
    requires s[p + NxActionHeader.HEADER_LENGTH..p + HEADER_LENGTH] == learnHeader
    requires window == total - HEADER_LENGTH
    ensures ParseAt(s, p) == Ok((ActionLearn(NxActionHeader.NX_VENDOR_ID, learnHeader, window), p + HEADER_LENGTH))
  {
    Signed16OfShort(window);
  }

  /** An action written with a computed length that counts its octets, a
      22-octet learn header and a padded length that fits a signed short reads
      back with the Nicira id, the same learn header, and a flow-mod length
      that covers the flow mods and the padding after them. */
  lemma ParseAtEncoding(s: seq<Byte>, p: nat, learnHeader: seq<Byte>, flowMods: seq<Byte>, length: nat)
    requires |learnHeader| == LEARN_HEADER_LENGTH
    requires length == NxActionHeader.HEADER_LENGTH + |learnHeader| + |flowMods|
    requires length + Pad(length) < 0x8000
    requires At(s, p, Encoding(learnHeader, flowMods, length))
    ensures ParseAt(s, p)
      == Ok((ActionLearn(NxActionHeader.NX_VENDOR_ID, learnHeader, |flowMods| + Pad(length)), p + HEADER_LENGTH))
  {
    EncodingPartsAt(s, p, learnHeader, flowMods, length);
    PartsReadBack(s, p, learnHeader, length + Pad(length), |flowMods| + Pad(length));
  }

  /** A client that frames an action into an empty buffer and reads the frame
      back gets the learn header and the flow-mod length of the lemma above. */
  method RoundTrip(learnHeader: seq<Byte>, flowMods: seq<Byte>) returns (r: Result<LearnRead>)
    requires |learnHeader| == LEARN_HEADER_LENGTH && |flowMods| < 0x7FD0
    ensures var length := HEADER_LENGTH + |flowMods|;
      r == Ok(ActionLearn(NxActionHeader.NX_VENDOR_ID, learnHeader, |flowMods| + Pad(length)))
  {
    var length := NxActionHeader.HEADER_LENGTH + |learnHeader| + |flowMods|;
    var buffer := new ByteBuf.Wrap([]);
    Serialize(learnHeader, flowMods, length, buffer);
    var e := Encoding(learnHeader, flowMods, length);
    assert buffer.bytes == e;
    assert e[0..|e|] == e;
    AtWindow(e, 0, e);
    ParseAtEncoding(e, 0, learnHeader, flowMods, length);
    r := Deserialize(buffer);
  }
}
