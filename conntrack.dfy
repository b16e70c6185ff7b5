/** ConntrackCodec: the Nicira NXAST_CT action (subtype 35) and the NAT
    (subtype 36) and ct_mark set-field sub-actions it carries.

      header (10) | flags (2) | zone_src (4) | zone (2) | recirc_table (1) | zeros (5) | sub-actions

    A NAT sub-action is a Nicira header, 2 zero octets, flags (2), range_present
    (2), the optional fields its range bits announce (IPv4 min and max, 4 each;
    port min and max, 2 each) and `8 - length % 8` zero octets. A ct_mark
    sub-action is 16 octets: set-field code 25, length 16, the NXM header
    00 01 d6 04, the mark (4) and 4 zero octets. IPv4 addresses are 32-bit
    values here. */
module ConntrackCodec {
  import opened Wrappers
  import opened Bytes
  import opened ByteBufs
  import NxActionHeader

  const CT_LENGTH: int := 24
  const NX_NAT_LENGTH: int := 16
  const SHORT_LENGTH: int := 2
  const INT_LENGTH: int := 4
  const NXM_CT_MARK_FIELD_CODE: int := 107
  const NXM_FIELD_CODE: int := 1
  const SET_FIELD_LENGTH: int := 16
  const SET_FIELD_CODE: int := 25
  const NXAST_CONNTRACK_SUBTYPE: int := 35
  const NXAST_NAT_SUBTYPE: int := 36

  /** The `NxActionNatRangePresent` bits. */
  const NXNATRANGEIPV4MIN: nat := 1
  const NXNATRANGEIPV4MAX: nat := 2
  const NXNATRANGEIPV6MIN: nat := 4
  const NXNATRANGEIPV6MAX: nat := 8
  const NXNATRANGEPROTOMIN: nat := 16
  const NXNATRANGEPROTOMAX: nat := 32

  datatype NxActionNat = NxActionNat(flags: int, rangePresent: int,
                                     ipAddressMin: Option<int>, ipAddressMax: Option<int>,
                                     portMin: Option<int>, portMax: Option<int>)

  /** The `OfpactActions` cases a conntrack action can carry. */
  datatype CtAction = NxActionNatCase(nxActionNat: NxActionNat) | NxActionCtMarkCase(ctMark: int)

  datatype NxActionConntrack = NxActionConntrack(flags: int, zoneSrc: int, conntrackZone: int,
                                                 recircTable: int, ctActions: Option<seq<CtAction>>)

  datatype Action = ActionConntrack(experimenterId: int, nxActionConntrack: NxActionConntrack)

  /** `0 != (rangePresent & bit)` for a one-bit mask. */
  predicate HasBit(rangePresent: int, bit: nat)
    requires bit > 0
  {
    (rangePresent / bit) % 2 == 1
  }

  // ---------------------------------------------------------------- lengths

  /** Octets that the optional fields announced by `rangePresent` take. */
  function RangeFieldsLength(rangePresent: int): nat {
    (if HasBit(rangePresent, NXNATRANGEIPV4MIN) then INT_LENGTH else 0)
    + (if HasBit(rangePresent, NXNATRANGEIPV4MAX) then INT_LENGTH else 0)
    + (if HasBit(rangePresent, NXNATRANGEPROTOMIN) then SHORT_LENGTH else 0)
    + (if HasBit(rangePresent, NXNATRANGEPROTOMAX) then SHORT_LENGTH else 0)
  }

  /** `getNatActionLength`: the fixed 16 octets and the announced fields. */
  function NatActionLength(rangePresent: int): (n: int)
    ensures NX_NAT_LENGTH <= n <= NX_NAT_LENGTH + 12
  {
    NX_NAT_LENGTH + RangeFieldsLength(rangePresent)
  }

  /** The padding after a NAT sub-action. It is never 0: an 8-aligned length
      gains 8 octets. */
  function NatPad(natLength: int): (pad: int)
    ensures 1 <= pad <= 8
  {
    8 - natLength % 8
  }

  /** The padding brings a NAT sub-action to a multiple of 8, and adds a whole
      8 octets to one that is already aligned. */
  lemma NatPadAligns(natLength: int)
    ensures (natLength + NatPad(natLength)) % 8 == 0
    ensures natLength % 8 == 0 <==> NatPad(natLength) == 8
  {
  }

  /** The octets one sub-action adds to `getActionLength`. */
  function CtActionLength(a: CtAction): (n: int)
    ensures n >= NX_NAT_LENGTH
  {
    match a
    case NxActionNatCase(natAction) =>
      var natLength := NatActionLength(natAction.rangePresent);
      natLength + NatPad(natLength)
    case NxActionCtMarkCase(_) => SET_FIELD_LENGTH
  }

  /** The total of the sub-actions' lengths. */
  function CtActionsLength(l: seq<CtAction>): int {
    if |l| == 0 then 0 else CtActionLength(l[0]) + CtActionsLength(l[1..])
  }

  /** `getActionLength`'s value: 0 for a null list. */
  function ActionLength(c: NxActionConntrack): int {
    match c.ctActions
    case None => 0
    case Some(l) => CtActionsLength(l)
  }

  /** The outer length as `serialize` writes it. */
  function HeaderLength(c: NxActionConntrack): int {
    var length := ActionLength(c);
    length + length % 8 + CT_LENGTH
  }

  lemma {:induction false} CtActionsLengthAppend(l: seq<CtAction>, a: CtAction)
    ensures CtActionsLength(l + [a]) == CtActionsLength(l) + CtActionLength(a)
    decreases |l|
  {
    if |l| > 0 {
      assert (l + [a])[1..] == l[1..] + [a];
      CtActionsLengthAppend(l[1..], a);
    }
  }

  /** Every sub-action length is a multiple of 8. */
  lemma CtActionLengthMultipleOf8(a: CtAction)
    ensures CtActionLength(a) % 8 == 0
  {
    if a.NxActionNatCase? {
      NatPadAligns(NatActionLength(a.nxActionNat.rangePresent));
    }
  }

  /** The total of multiples of 8 is one too. */
  lemma {:induction false} CtActionsLengthMultipleOf8(l: seq<CtAction>)
    ensures CtActionsLength(l) >= 0 && CtActionsLength(l) % 8 == 0
    decreases |l|
  {
    if |l| > 0 {
      CtActionLengthMultipleOf8(l[0]);
      CtActionsLengthMultipleOf8(l[1..]);
      var a, b := CtActionLength(l[0]), CtActionsLength(l[1..]);
      assert a + b == 8 * (a / 8 + b / 8);
    }
  }

  /** The outer length is the sub-actions' length plus the 24 fixed octets: the
      `% 8` term in `serialize` is always 0. */
  lemma HeaderLengthIsFixedPartPlusActions(c: NxActionConntrack)
    ensures HeaderLength(c) == ActionLength(c) + CT_LENGTH
    ensures HeaderLength(c) >= CT_LENGTH && HeaderLength(c) % 8 == 0
  {
    if c.ctActions.Some? {
      CtActionsLengthMultipleOf8(c.ctActions.value);
    }
  }

  /** `getActionLength`, the loop over the sub-actions. */
  method GetActionLength(action: NxActionConntrack) returns (length: int)
    ensures length == ActionLength(action)
  {
    length := 0;
    if action.ctActions == None {
      return length;
    }
    var ctActionsList := action.ctActions.value;
    for i := 0 to |ctActionsList|
      invariant length == CtActionsLength(ctActionsList[..i])
    {
      match ctActionsList[i] {
        case NxActionNatCase(natAction) =>
          var natLength := NatActionLength(natAction.rangePresent);
          var pad := NatPad(natLength);
          length := length + natLength + pad;
        case NxActionCtMarkCase(_) =>
          length := length + SET_FIELD_LENGTH;
      }
      CtActionsLengthAppend(ctActionsList[..i], ctActionsList[i]);
      assert ctActionsList[..i + 1] == ctActionsList[..i] + [ctActionsList[i]];
    }
    assert ctActionsList[..|ctActionsList|] == ctActionsList;
  }

  // -------------------------------------------------------------- encodings

  /** What `serialize` needs of a NAT sub-action: the wire widths of its
      fields, and a port wherever a port bit is set (`toJava()` on a null port
      throws). A null address is written as nothing. */
  predicate SerializableNat(n: NxActionNat) {
    && IsU16(n.flags) && IsU16(n.rangePresent)
    && (n.ipAddressMin.Some? ==> IsU32(n.ipAddressMin.value))
    && (n.ipAddressMax.Some? ==> IsU32(n.ipAddressMax.value))
    && (HasBit(n.rangePresent, NXNATRANGEPROTOMIN) ==> n.portMin.Some? && IsU16(n.portMin.value))
    && (HasBit(n.rangePresent, NXNATRANGEPROTOMAX) ==> n.portMax.Some? && IsU16(n.portMax.value))
  }

  predicate SerializableCtAction(a: CtAction) {
    match a
    case NxActionNatCase(n) => SerializableNat(n)
    case NxActionCtMarkCase(m) => IsU32(m)
  }

  predicate SerializableCtActions(l: seq<CtAction>) {
    forall i :: 0 <= i < |l| ==> SerializableCtAction(l[i])
  }

  predicate Serializable(c: NxActionConntrack) {
    && IsU16(c.flags) && IsU32(c.zoneSrc) && IsU16(c.conntrackZone) && IsU8(c.recircTable)
    && (c.ctActions.Some? ==> SerializableCtActions(c.ctActions.value))
  }

  /** An address written only when its bit is set and it is not null. */
  function OptAddress(present: bool, v: Option<int>): (s: seq<Byte>)
    requires v.Some? ==> IsU32(v.value)
    ensures |s| == if present && v.Some? then INT_LENGTH else 0
  {
    if present && v.Some? then Be32(v.value) else []
  }

  /** A port written when its bit is set. */
  function OptPort(present: bool, v: Option<int>): (s: seq<Byte>)
    requires present ==> v.Some? && IsU16(v.value)
    ensures |s| == if present then SHORT_LENGTH else 0
  {
    if present then Be16(v.value) else []
  }

  /** The optional NAT fields in wire order. */
  function RangeFields(n: NxActionNat): seq<Byte>
    requires SerializableNat(n)
  {
    var rp := n.rangePresent;
    OptAddress(HasBit(rp, NXNATRANGEIPV4MIN), n.ipAddressMin)
      + OptAddress(HasBit(rp, NXNATRANGEIPV4MAX), n.ipAddressMax)
      + OptPort(HasBit(rp, NXNATRANGEPROTOMIN), n.portMin)
      + OptPort(HasBit(rp, NXNATRANGEPROTOMAX), n.portMax)
  }

  /** The fixed NAT octets after the header: 2 zeros, flags, range_present. */
  function NatFixed(n: NxActionNat): (s: seq<Byte>)
    requires SerializableNat(n)
    ensures |s| == 6
  {
    Zeros(2) + Be16(n.flags) + Be16(n.rangePresent)
  }

  /** What the NAT branch of `serializeCtAction` writes. */
  function NatEncoding(n: NxActionNat): seq<Byte>
    requires SerializableNat(n)
  {
    var natLength := NatActionLength(n.rangePresent);
    var pad := NatPad(natLength);
    NxActionHeader.Header(natLength + pad, NXAST_NAT_SUBTYPE) + NatFixed(n) + RangeFields(n) + Zeros(pad)
  }

  /** The four octets 00 01 d6 04: NXM class 1, field 107 without mask, length 4. */
  function CtMarkNxmHeader(): seq<Byte> {
    [0, NXM_FIELD_CODE, NXM_CT_MARK_FIELD_CODE * 2, INT_LENGTH]
  }

  /** What the ct_mark branch of `serializeCtAction` writes. */
  function CtMarkEncoding(ctMark: int): (s: seq<Byte>)
    requires IsU32(ctMark)
    ensures |s| == SET_FIELD_LENGTH
  {
    Be16(SET_FIELD_CODE) + Be16(SET_FIELD_LENGTH) + CtMarkNxmHeader() + Be32(ctMark) + Zeros(INT_LENGTH)
  }

  function CtActionEncoding(a: CtAction): seq<Byte>
    requires SerializableCtAction(a)
  {
    match a
    case NxActionNatCase(n) => NatEncoding(n)
    case NxActionCtMarkCase(m) => CtMarkEncoding(m)
  }

  function CtActionsEncoding(l: seq<CtAction>): seq<Byte>
    requires SerializableCtActions(l)
  {
    if |l| == 0 then [] else CtActionEncoding(l[0]) + CtActionsEncoding(l[1..])
  }

  /** The 14 octets after the outer header. */
  function ConntrackFixed(c: NxActionConntrack): (s: seq<Byte>)
    requires Serializable(c)
    ensures |s| == CT_LENGTH - NxActionHeader.HEADER_LENGTH
  {
    Be16(c.flags) + Be32(c.zoneSrc) + Be16(c.conntrackZone) + [c.recircTable as Byte] + Zeros(5)
  }

  /** What `serialize` writes. */
  function Encoding(input: Action): seq<Byte>
    requires Serializable(input.nxActionConntrack)
  {
    var c := input.nxActionConntrack;
    NxActionHeader.Header(HeaderLength(c), NXAST_CONNTRACK_SUBTYPE) + ConntrackFixed(c)
      + CtActionsPart(c)
  }

  /** The sub-actions' octets; none for a null list. */
  function CtActionsPart(c: NxActionConntrack): seq<Byte>
    requires Serializable(c)
  {
    if c.ctActions.Some? then CtActionsEncoding(c.ctActions.value) else []
  }

  /** A non-empty list writes its first sub-action and then the rest. */
  lemma CtActionsEncodingUnfold(l: seq<CtAction>, x: CtAction, t: seq<CtAction>)
    requires |l| > 0 && x == l[0] && t == l[1..] && SerializableCtActions(l)
    ensures SerializableCtAction(x) && SerializableCtActions(t)
    ensures CtActionsEncoding(l) == CtActionEncoding(x) + CtActionsEncoding(t)
  {
    assert forall i :: 0 <= i < |t| ==> t[i] == l[i + 1];
  }

  lemma SerializableAppend(l: seq<CtAction>, a: CtAction, la: seq<CtAction>)
    requires SerializableCtActions(l) && SerializableCtAction(a) && la == l + [a]
    ensures SerializableCtActions(la)
  {
    assert forall i :: 0 <= i < |la| ==> la[i] == if i < |l| then l[i] else a;
  }

  lemma {:induction false} CtActionsEncodingAppend(l: seq<CtAction>, a: CtAction)
    requires SerializableCtActions(l)
    requires SerializableCtAction(a)
    ensures SerializableCtActions(l + [a])
    ensures CtActionsEncoding(l + [a]) == CtActionsEncoding(l) + CtActionEncoding(a)
    decreases |l|
  {
    var la := l + [a];
    SerializableAppend(l, a, la);
    if |l| == 0 {
      assert la[1..] == [];
      CtActionsEncodingUnfold(la, a, []);
    } else {
      var x, t := l[0], l[1..];
      assert la[0] == x && la[1..] == t + [a];
      CtActionsEncodingUnfold(l, x, t);
      CtActionsEncodingAppend(t, a);
      CtActionsEncodingUnfold(la, x, t + [a]);
      AppendAssoc(CtActionEncoding(x), CtActionsEncoding(t), CtActionEncoding(a));
    }
  }

  // ------------------------------------------------------------- serializer

  /** `if (present) { if (null != v) writeBytes(address) }`. */
  method WriteOptAddress(present: bool, v: Option<int>, outBuffer: ByteBuf)
    requires v.Some? ==> IsU32(v.value)
    modifies outBuffer`bytes
    ensures outBuffer.bytes == old(outBuffer.bytes) + OptAddress(present, v)
  {
    if present {
      if v.Some? {
        outBuffer.WriteBytes(Be32(v.value));
      }
    }
  }

  /** `if (present) writeShort(port)`. */
  method WriteOptPort(present: bool, v: Option<int>, outBuffer: ByteBuf)
    requires present ==> v.Some? && IsU16(v.value)
    modifies outBuffer`bytes
    ensures outBuffer.bytes == old(outBuffer.bytes) + OptPort(present, v)
  {
    if present {
      outBuffer.WriteShort(v.value);
    }
  }

  /** The fixed NAT octets after its header. */
  method SerializeNatFixed(natAction: NxActionNat, outBuffer: ByteBuf)
    requires SerializableNat(natAction)
    modifies outBuffer`bytes
    ensures outBuffer.bytes == old(outBuffer.bytes) + NatFixed(natAction)
  {
    outBuffer.WriteZero(2);
    outBuffer.WriteShort(natAction.flags);
    outBuffer.WriteShort(natAction.rangePresent);
  }

  /** The optional NAT fields, each only when its range bit is set. */
  method SerializeRangeFields(natAction: NxActionNat, outBuffer: ByteBuf)
    requires SerializableNat(natAction)
    modifies outBuffer`bytes
    ensures outBuffer.bytes == old(outBuffer.bytes) + RangeFields(natAction)
  {
    var rangePresent := natAction.rangePresent;
    WriteOptAddress(HasBit(rangePresent, NXNATRANGEIPV4MIN), natAction.ipAddressMin, outBuffer);
    WriteOptAddress(HasBit(rangePresent, NXNATRANGEIPV4MAX), natAction.ipAddressMax, outBuffer);
    WriteOptPort(HasBit(rangePresent, NXNATRANGEPROTOMIN), natAction.portMin, outBuffer);
    WriteOptPort(HasBit(rangePresent, NXNATRANGEPROTOMAX), natAction.portMax, outBuffer);
  }

  /** The NAT branch of `serializeCtAction`. */
  method SerializeNat(natAction: NxActionNat, outBuffer: ByteBuf)
    requires SerializableNat(natAction)
    modifies outBuffer`bytes
    ensures outBuffer.bytes == old(outBuffer.bytes) + NatEncoding(natAction)
  {
    var natLength := NatActionLength(natAction.rangePresent);
    var pad := NatPad(natLength);
    NxActionHeader.SerializeHeader(natLength + pad, NXAST_NAT_SUBTYPE, outBuffer);
    SerializeNatFixed(natAction, outBuffer);
    SerializeRangeFields(natAction, outBuffer);
    outBuffer.WriteZero(pad);
    NatEncodingParts(old(outBuffer.bytes), natAction);
  }

  lemma NatEncodingParts(b: seq<Byte>, n: NxActionNat)
    requires SerializableNat(n)
    ensures var natLength := NatActionLength(n.rangePresent);
      b + NatEncoding(n) == b + NxActionHeader.Header(natLength + NatPad(natLength), NXAST_NAT_SUBTYPE)
        + NatFixed(n) + RangeFields(n) + Zeros(NatPad(natLength))
  {
    var natLength := NatActionLength(n.rangePresent);
    var h := NxActionHeader.Header(natLength + NatPad(natLength), NXAST_NAT_SUBTYPE);
    var f, g, z := NatFixed(n), RangeFields(n), Zeros(NatPad(natLength));
    AppendAssoc(b, h + f + g, z);
    AppendAssoc(b, h + f, g);
    AppendAssoc(b, h, f);
  }

  /** The ct_mark branch of `serializeCtAction`. */
  method SerializeCtMark(ctMark: int, outBuffer: ByteBuf)
    requires IsU32(ctMark)
    modifies outBuffer`bytes
    ensures outBuffer.bytes == old(outBuffer.bytes) + CtMarkEncoding(ctMark)
  {
    outBuffer.WriteShort(SET_FIELD_CODE);
    outBuffer.WriteShort(SET_FIELD_LENGTH);
    outBuffer.WriteZero(1);
    outBuffer.WriteByte(NXM_FIELD_CODE);
    outBuffer.WriteByte(NXM_CT_MARK_FIELD_CODE * 2);
    outBuffer.WriteByte(INT_LENGTH);
    outBuffer.WriteInt(ctMark);
    outBuffer.WriteZero(INT_LENGTH);
  }

  /** One sub-action, by its case. */
  method SerializeOne(ctAction: CtAction, outBuffer: ByteBuf)
    requires SerializableCtAction(ctAction)
    modifies outBuffer`bytes
    ensures outBuffer.bytes == old(outBuffer.bytes) + CtActionEncoding(ctAction)
  {
    match ctAction {
      case NxActionNatCase(natAction) => SerializeNat(natAction, outBuffer);
      case NxActionCtMarkCase(ctMark) => SerializeCtMark(ctMark, outBuffer);
    }
  }

  /** `serializeCtAction`: every sub-action in list order; nothing for a null list. */
  method SerializeCtAction(outBuffer: ByteBuf, action: NxActionConntrack)
    requires Serializable(action)
    modifies outBuffer`bytes
    ensures outBuffer.bytes == old(outBuffer.bytes) + CtActionsPart(action)
  {
    if action.ctActions == None {
      return;
    }
    var ctActionsList := action.ctActions.value;
    for i := 0 to |ctActionsList|
      invariant outBuffer.bytes == old(outBuffer.bytes) + CtActionsEncoding(ctActionsList[..i])
    {
      SerializeOne(ctActionsList[i], outBuffer);
      CtActionsEncodingStep(old(outBuffer.bytes), ctActionsList, i);
    }
    assert ctActionsList[..|ctActionsList|] == ctActionsList;
  }

  /** The loop step of `serializeCtAction`. */
  lemma CtActionsEncodingStep(b: seq<Byte>, l: seq<CtAction>, i: nat)
    requires i < |l| && SerializableCtActions(l)
    ensures b + CtActionsEncoding(l[..i]) + CtActionEncoding(l[i]) == b + CtActionsEncoding(l[..i + 1])
  {
    assert l[..i + 1] == l[..i] + [l[i]];
    CtActionsEncodingAppend(l[..i], l[i]);
  }

  /** `serialize`. */
  method Serialize(input: Action, outBuffer: ByteBuf)
    requires Serializable(input.nxActionConntrack)
    modifies outBuffer`bytes
    ensures outBuffer.bytes == old(outBuffer.bytes) + Encoding(input)
  {
    var action := input.nxActionConntrack;
    var length := GetActionLength(action);
    var pad := length % 8;
    NxActionHeader.SerializeHeader(length + pad + CT_LENGTH, NXAST_CONNTRACK_SUBTYPE, outBuffer);
    SerializeFixed(action, outBuffer);
    SerializeCtAction(outBuffer, action);
    EncodingParts(old(outBuffer.bytes), input);
  }

  /** The fixed conntrack octets after the outer header. */
  method SerializeFixed(action: NxActionConntrack, outBuffer: ByteBuf)
    requires Serializable(action)
    modifies outBuffer`bytes
    ensures outBuffer.bytes == old(outBuffer.bytes) + ConntrackFixed(action)
  {
    LowIdentities(action);
    outBuffer.WriteShort(action.flags);
    outBuffer.WriteInt(action.zoneSrc);
    outBuffer.WriteShort(action.conntrackZone);
    outBuffer.WriteByte(action.recircTable);
    outBuffer.WriteZero(5);
  }

  /** `shortValue()`, `intValue()` and `byteValue()` keep the fixed fields as they are. */
  lemma LowIdentities(c: NxActionConntrack)
    requires Serializable(c)
    ensures Low16(c.flags) == c.flags && Low32(c.zoneSrc) == c.zoneSrc
    ensures Low16(c.conntrackZone) == c.conntrackZone && Low8(c.recircTable) == c.recircTable
  {
  }

  lemma EncodingParts(b: seq<Byte>, input: Action)
    requires Serializable(input.nxActionConntrack)
    ensures var c := input.nxActionConntrack;
      b + Encoding(input)
        == b + NxActionHeader.Header(HeaderLength(c), NXAST_CONNTRACK_SUBTYPE) + ConntrackFixed(c) + CtActionsPart(c)
  {
    var c := input.nxActionConntrack;
    var h := NxActionHeader.Header(HeaderLength(c), NXAST_CONNTRACK_SUBTYPE);
    AppendAssoc(b, h + ConntrackFixed(c), CtActionsPart(c));
    AppendAssoc(b, h, ConntrackFixed(c));
  }

  // ----------------------------------------------------------------- parser

  /** The signed length field of a Nicira header that starts at `p`. */
  function HeaderLengthAt(s: seq<Byte>, p: nat): int
    requires p + 4 <= |s|
  {
    FromBe16Signed(s[p + 2..p + 4])
  }

  /** Octets of a field of width `w` that is there only when `present`. */
  function Width(present: bool, w: nat): nat {
    if present then w else 0
  }

  /** A 32-bit field at `c`, read only when `present`. */
  function OptU32At(s: seq<Byte>, c: nat, present: bool): Option<int>
    requires present ==> c + 4 <= |s|
  {
    if present then Some(FromBe32(s[c..c + 4])) else None
  }

  /** A 16-bit field at `c`, read only when `present`. */
  function OptU16At(s: seq<Byte>, c: nat, present: bool): Option<int>
    requires present ==> c + 2 <= |s|
  {
    if present then Some(FromBe16(s[c..c + 2])) else None
  }

  /** The range_present field of a NAT sub-action that starts at `p`. */
  function RangePresentAt(s: seq<Byte>, p: nat): int
    requires p + NX_NAT_LENGTH <= |s|
  {
    FromBe16(s[p + 14..p + 16])
  }

  /** The optional NAT fields from `c0`, each read only when its bit is set. */
  function RangeFieldsAt(s: seq<Byte>, c0: nat, rp: int): (Option<int>, Option<int>, Option<int>, Option<int>)
    requires c0 + RangeFieldsLength(rp) <= |s|
  {
    var c1 := c0 + Width(HasBit(rp, NXNATRANGEIPV4MIN), INT_LENGTH);
    var c2 := c1 + Width(HasBit(rp, NXNATRANGEIPV4MAX), INT_LENGTH);
    var c3 := c2 + Width(HasBit(rp, NXNATRANGEPROTOMIN), SHORT_LENGTH);
    (OptU32At(s, c0, HasBit(rp, NXNATRANGEIPV4MIN)), OptU32At(s, c1, HasBit(rp, NXNATRANGEIPV4MAX)),
     OptU16At(s, c2, HasBit(rp, NXNATRANGEPROTOMIN)), OptU16At(s, c3, HasBit(rp, NXNATRANGEPROTOMAX)))
  }

  /** The fields of a NAT sub-action at `p` whose announced fields are all there. */
  function NatFieldsAt(s: seq<Byte>, p: nat): NxActionNat
    requires p + NX_NAT_LENGTH <= |s| && p + NatActionLength(RangePresentAt(s, p)) <= |s|
  {
    var rp := RangePresentAt(s, p);
    var f := RangeFieldsAt(s, p + NX_NAT_LENGTH, rp);
    NxActionNat(FromBe16(s[p + 12..p + 14]), rp, f.0, f.1, f.2, f.3)
  }

  /** The NAT branch of `deserializeCtAction` at `p`: the sub-action and the
      length its header gives, which is what the branch consumes. The 16 fixed
      octets and the announced fields must be there; the padding skip fails
      with IllegalArgument when the header length is shorter than what was read. */
  function NatAt(s: seq<Byte>, p: nat): (r: Result<(NxActionNat, int)>)
    ensures r.Ok? ==> NX_NAT_LENGTH <= r.value.1 && p + r.value.1 <= |s|
    ensures r.Ok? ==> NatActionLength(r.value.0.rangePresent) <= r.value.1
  {
    if p + NX_NAT_LENGTH > |s| then Err(IndexOutOfBounds)
    else
      var consumed := NatActionLength(RangePresentAt(s, p));
      if p + consumed > |s| then Err(IndexOutOfBounds)
      else
        var length := HeaderLengthAt(s, p);
        if length - consumed < 0 then Err(IllegalArgument)
        else if p + length > |s| then Err(IndexOutOfBounds)
        else Ok((NatFieldsAt(s, p), length))
  }

  /** The ct_mark branch at `p`: 16 octets, the mark at offset 8. */
  function CtMarkAt(s: seq<Byte>, p: nat): (r: Result<int>)
    ensures r.Ok? <==> p + SET_FIELD_LENGTH <= |s|
    ensures r.Ok? ==> IsU32(r.value)
  {
    if p + SET_FIELD_LENGTH > |s| then Err(IndexOutOfBounds)
    else Ok(FromBe32(s[p + 8..p + 12]))
  }

  /** `acc` in front of a parsed list; a failure stays a failure. */
  function Prefixed(acc: seq<CtAction>, r: Result<(seq<CtAction>, nat)>): Result<(seq<CtAction>, nat)> {
    match r
    case Ok((l, end)) => Ok((acc + l, end))
    case Err(e) => Err(e)
  }

  /** `deserializeCtAction` from `p` with `remaining` octets announced: the
      sub-actions and the position after the last. A sub-action whose first two
      octets are the experimenter type is NAT; any other is taken for ct_mark. */
  function CtActionsAt(s: seq<Byte>, p: nat, remaining: int): (r: Result<(seq<CtAction>, nat)>)
    ensures r.Ok? && remaining > 0 ==> p + remaining <= r.value.1 <= |s|
    ensures r.Ok? && remaining <= 0 ==> r.value.1 == p
    decreases remaining, 1
  {
    if remaining <= 0 then Ok(([], p))
    else if p + SHORT_LENGTH > |s| then Err(IndexOutOfBounds)
    else if FromBe16(s[p..p + 2]) == NxActionHeader.EXPERIMENTER_VALUE then NatThen(s, p, remaining)
    else CtMarkThen(s, p, remaining)
  }

  /** A NAT sub-action at `p` and the rest of the run after the length its
      header gives. */
  function NatThen(s: seq<Byte>, p: nat, remaining: int): (r: Result<(seq<CtAction>, nat)>)
    requires remaining > 0
    ensures r.Ok? ==> p + remaining <= r.value.1 <= |s|
    decreases remaining, 0
  {
    match NatAt(s, p)
    case Err(e) => Err(e)
    case Ok((n, length)) => Prefixed([NxActionNatCase(n)], CtActionsAt(s, p + length, remaining - length))
  }

  /** A ct_mark sub-action at `p` and the rest of the run after its 16 octets. */
  function CtMarkThen(s: seq<Byte>, p: nat, remaining: int): (r: Result<(seq<CtAction>, nat)>)
    requires remaining > 0
    ensures r.Ok? ==> p + remaining <= r.value.1 <= |s|
    decreases remaining, 0
  {
    match CtMarkAt(s, p)
    case Err(e) => Err(e)
    case Ok(m) => Prefixed([NxActionCtMarkCase(m)], CtActionsAt(s, p + SET_FIELD_LENGTH, remaining - SET_FIELD_LENGTH))
  }

  /** The fixed conntrack fields of an action at `p`, without sub-actions. */
  function ConntrackFixedAt(s: seq<Byte>, p: nat): NxActionConntrack
    requires p + CT_LENGTH <= |s|
  {
    NxActionConntrack(FromBe16(s[p + 10..p + 12]), FromBe32(s[p + 12..p + 16]),
                      FromBe16(s[p + 16..p + 18]), s[p + 18], None)
  }

  /** `deserialize` at `p`: the action and the position after it. Sub-actions
      are read only when the header length exceeds the 24 fixed octets. */
  function ParseAt(s: seq<Byte>, p: nat): (r: Result<(Action, nat)>)
    ensures r.Ok? ==> p + CT_LENGTH <= r.value.1 <= |s|
    ensures r.Ok? ==> r.value.1 >= p + HeaderLengthAt(s, p)
    ensures r.Ok? ==> r.value.0.experimenterId == NxActionHeader.NX_VENDOR_ID
  {
    if p + CT_LENGTH > |s| then Err(IndexOutOfBounds)
    else
      var length := HeaderLengthAt(s, p);
      var fixed := ConntrackFixedAt(s, p);
      if length > CT_LENGTH then
        match CtActionsAt(s, p + CT_LENGTH, length - CT_LENGTH)
        case Err(e) => Err(e)
        case Ok((l, end)) => Ok((ActionConntrack(NxActionHeader.NX_VENDOR_ID, fixed.(ctActions := Some(l))), end))
      else Ok((ActionConntrack(NxActionHeader.NX_VENDOR_ID, fixed), p + CT_LENGTH))
  }

  /** An exhausted run ends where it stands, with what was parsed before it. */
  lemma CtActionsAtDone(s: seq<Byte>, p: nat, remaining: int, acc: seq<CtAction>)
    requires remaining <= 0
    ensures Prefixed(acc, CtActionsAt(s, p, remaining)) == Ok((acc, p))
  {
    assert acc + [] == acc;
  }

  lemma PrefixedNothing(r: Result<(seq<CtAction>, nat)>)
    ensures Prefixed([], r) == r
  {
    if r.Ok? {
      assert [] + r.value.0 == r.value.0;
    }
  }

  lemma PrefixedPrefixed(acc: seq<CtAction>, a: CtAction, r: Result<(seq<CtAction>, nat)>)
    ensures Prefixed(acc, Prefixed([a], r)) == Prefixed(acc + [a], r)
  {
    if r.Ok? {
      assert acc + ([a] + r.value.0) == (acc + [a]) + r.value.0;
    }
  }

  // ------------------------------------------------------------ deserializer

  /** `deserializeCtHeaderWithoutSubtype`: type (2), the signed length, 4 more octets. */
  method DeserializeCtHeaderWithoutSubtype(message: ByteBuf) returns (r: Result<int>)
    requires message.Valid()
    modifies message`readerIndex
    ensures message.Valid()
    ensures if old(message.Readable()) >= 8
      then r == Ok(HeaderLengthAt(message.bytes, old(message.readerIndex)))
        && message.readerIndex == old(message.readerIndex) + 8
      else r == Err(IndexOutOfBounds)
  {
    var _ :- message.SkipBytes(SHORT_LENGTH);
    var length :- message.ReadShort();
    var _ :- message.SkipBytes(INT_LENGTH);
    return Ok(length);
  }

  /** `deserializeCtHeader`: the same and the subtype (2). */
  method DeserializeCtHeader(message: ByteBuf) returns (r: Result<int>)
    requires message.Valid()
    modifies message`readerIndex
    ensures message.Valid()
    ensures if old(message.Readable()) >= NxActionHeader.HEADER_LENGTH
      then r == Ok(HeaderLengthAt(message.bytes, old(message.readerIndex)))
        && message.readerIndex == old(message.readerIndex) + NxActionHeader.HEADER_LENGTH
      else r == Err(IndexOutOfBounds)
  {
    var length :- DeserializeCtHeaderWithoutSubtype(message);
    var _ :- message.SkipBytes(SHORT_LENGTH);
    return Ok(length);
  }

  /** An address field, read when its bit is set. */
  method ReadOptAddress(message: ByteBuf, present: bool) returns (r: Result<Option<int>>)
    requires message.Valid()
    modifies message`readerIndex
    ensures message.Valid()
    ensures if old(message.Readable()) >= Width(present, INT_LENGTH)
      then r == Ok(OptU32At(message.bytes, old(message.readerIndex), present))
        && message.readerIndex == old(message.readerIndex) + Width(present, INT_LENGTH)
      else r == Err(IndexOutOfBounds)
  {
    if present {
      var a :- message.ReadUint32();
      return Ok(Some(a));
    }
    return Ok(None);
  }

  /** A port field, read when its bit is set. */
  method ReadOptPort(message: ByteBuf, present: bool) returns (r: Result<Option<int>>)
    requires message.Valid()
    modifies message`readerIndex
    ensures message.Valid()
    ensures if old(message.Readable()) >= Width(present, SHORT_LENGTH)
      then r == Ok(OptU16At(message.bytes, old(message.readerIndex), present))
        && message.readerIndex == old(message.readerIndex) + Width(present, SHORT_LENGTH)
      else r == Err(IndexOutOfBounds)
  {
    if present {
      var port :- message.ReadUint16();
      return Ok(Some(port));
    }
    return Ok(None);
  }

  /** The optional NAT fields, in wire order. */
  method ReadRangeFields(message: ByteBuf, rangePresent: int)
    returns (r: Result<(Option<int>, Option<int>, Option<int>, Option<int>)>)
    requires message.Valid()
    modifies message`readerIndex
    ensures message.Valid()
    ensures if old(message.Readable()) >= RangeFieldsLength(rangePresent)
      then r == Ok(RangeFieldsAt(message.bytes, old(message.readerIndex), rangePresent))
        && message.readerIndex == old(message.readerIndex) + RangeFieldsLength(rangePresent)
      else r == Err(IndexOutOfBounds)
  {
    var ipAddressMin :- ReadOptAddress(message, HasBit(rangePresent, NXNATRANGEIPV4MIN));
    var ipAddressMax :- ReadOptAddress(message, HasBit(rangePresent, NXNATRANGEIPV4MAX));
    var portMin :- ReadOptPort(message, HasBit(rangePresent, NXNATRANGEPROTOMIN));
    var portMax :- ReadOptPort(message, HasBit(rangePresent, NXNATRANGEPROTOMAX));
    return Ok((ipAddressMin, ipAddressMax, portMin, portMax));
  }

  /** The 16 fixed octets of a NAT sub-action: its header length, flags and
      range_present. */
  method DeserializeNatFixed(message: ByteBuf) returns (r: Result<(int, int, int)>)
    requires message.Valid()
    modifies message`readerIndex
    ensures message.Valid()
    ensures var s, p := message.bytes, old(message.readerIndex);
      if old(message.Readable()) >= NX_NAT_LENGTH
      then r == Ok((HeaderLengthAt(s, p), FromBe16(s[p + 12..p + 14]), RangePresentAt(s, p)))
        && message.readerIndex == p + NX_NAT_LENGTH
      else r == Err(IndexOutOfBounds)
  {
    var length :- DeserializeCtHeader(message);
    var _ :- message.SkipBytes(SHORT_LENGTH);
    var flags :- message.ReadUint16();
    var rangePresent :- message.ReadUint16();
    return Ok((length, flags, rangePresent));
  }

  /** The NAT branch of `deserializeCtAction`, from the sub-action's first octet. */
  method DeserializeNat(message: ByteBuf) returns (r: Result<(NxActionNat, int)>)
    requires message.Valid()
    modifies message`readerIndex
    ensures message.Valid()
    ensures r == NatAt(message.bytes, old(message.readerIndex))
    ensures r.Ok? ==> message.readerIndex == old(message.readerIndex) + r.value.1
  {
    var startIndex := message.readerIndex;
    var fixed :- DeserializeNatFixed(message);
    var (length, flags, rangePresent) := fixed;
    var fields :- ReadRangeFields(message, rangePresent);
    var _ :- message.SkipBytes(length - (message.readerIndex - startIndex));
    return Ok((NxActionNat(flags, rangePresent, fields.0, fields.1, fields.2, fields.3), length));
  }

  /** The ct_mark branch of `deserializeCtAction`. */
  method DeserializeCtMark(message: ByteBuf) returns (r: Result<int>)
    requires message.Valid()
    modifies message`readerIndex
    ensures message.Valid()
    ensures r == CtMarkAt(message.bytes, old(message.readerIndex))
    ensures r.Ok? ==> message.readerIndex == old(message.readerIndex) + SET_FIELD_LENGTH
  {
    var _ :- DeserializeCtHeaderWithoutSubtype(message);
    var ctMark :- message.ReadUint32();
    var _ :- message.SkipBytes(INT_LENGTH);
    return Ok(ctMark);
  }

  /** The loop body of `deserializeCtAction`: the first two octets are peeked
      and the reader index put back, then the sub-action is read by its case.
      A run of `remaining` octets from here is this sub-action in front of the
      rest, or fails as it does. */
  method DeserializeOne(message: ByteBuf, ghost remaining: int) returns (r: Result<(CtAction, int)>)
    requires message.Valid() && remaining > 0
    modifies message`readerIndex
    ensures message.Valid()
    ensures r.Err? ==> CtActionsAt(message.bytes, old(message.readerIndex), remaining) == Err(r.error)
    ensures r.Ok? ==>
      && NX_NAT_LENGTH <= r.value.1
      && message.readerIndex == old(message.readerIndex) + r.value.1
      && CtActionsAt(message.bytes, old(message.readerIndex), remaining)
         == Prefixed([r.value.0], CtActionsAt(message.bytes, message.readerIndex, remaining - r.value.1))
  {
    var startReaderIndex := message.readerIndex;
    var experimenterType :- message.ReadUint16();
    message.SetReaderIndex(startReaderIndex);
    if experimenterType == NxActionHeader.EXPERIMENTER_VALUE {
      var natResult :- DeserializeNat(message);
      return Ok((NxActionNatCase(natResult.0), natResult.1));
    } else {
      var ctMark :- DeserializeCtMark(message);
      return Ok((NxActionCtMarkCase(ctMark), SET_FIELD_LENGTH));
    }
  }

  /** `deserializeCtAction`: sub-actions until `ctActionsLength` octets are
      accounted for. */
  method DeserializeCtAction(message: ByteBuf, ctActionsLength: int) returns (r: Result<seq<CtAction>>)
    requires message.Valid()
    modifies message`readerIndex
    ensures message.Valid()
    ensures WithEnd(r, message.readerIndex) == CtActionsAt(message.bytes, old(message.readerIndex), ctActionsLength)
  {
    ghost var s, p0 := message.bytes, message.readerIndex;
    var ctActionsList: seq<CtAction> := [];
    var processedCtActionsLength := ctActionsLength;
    PrefixedNothing(CtActionsAt(s, p0, processedCtActionsLength));
    while processedCtActionsLength > 0
      invariant message.Valid() && message.bytes == s
      invariant Prefixed(ctActionsList, CtActionsAt(s, message.readerIndex, processedCtActionsLength))
        == CtActionsAt(s, p0, ctActionsLength)
      decreases processedCtActionsLength
    {
      var one := DeserializeOne(message, processedCtActionsLength);
      if one.Err? {
        return Err(one.error);
      }
      var ctAction, length := one.value.0, one.value.1;
      PrefixedPrefixed(ctActionsList, ctAction, CtActionsAt(s, message.readerIndex, processedCtActionsLength - length));
      processedCtActionsLength := processedCtActionsLength - length;
      ctActionsList := ctActionsList + [ctAction];
    }
    CtActionsAtDone(s, message.readerIndex, processedCtActionsLength, ctActionsList);
    return Ok(ctActionsList);
  }

  /** The outer header and the fixed conntrack fields. */
  method DeserializeConntrackFixed(message: ByteBuf) returns (r: Result<(int, NxActionConntrack)>)
    requires message.Valid()
    modifies message`readerIndex
    ensures message.Valid()
    ensures var s, p := message.bytes, old(message.readerIndex);
      if old(message.Readable()) >= CT_LENGTH
      then r == Ok((HeaderLengthAt(s, p), ConntrackFixedAt(s, p))) && message.readerIndex == p + CT_LENGTH
      else r == Err(IndexOutOfBounds)
  {
    var length :- DeserializeCtHeader(message);
    var flags :- message.ReadUint16();
    var zoneSrc :- message.ReadUint32();
    var conntrackZone :- message.ReadUint16();
    var recircTable :- message.ReadUint8();
    var _ :- message.SkipBytes(5);
    return Ok((length, NxActionConntrack(flags, zoneSrc, conntrackZone, recircTable, None)));
  }

  /** `deserialize`. */
  method Deserialize(message: ByteBuf) returns (r: Result<Action>)
    requires message.Valid()
    modifies message`readerIndex
    ensures message.Valid()
    ensures WithEnd(r, message.readerIndex) == ParseAt(message.bytes, old(message.readerIndex))
  {
    var fixed :- DeserializeConntrackFixed(message);
    var (length, nxActionConntrack) := fixed;
    if length > CT_LENGTH {
      var ctActions :- DeserializeCtAction(message, length - CT_LENGTH);
      nxActionConntrack := nxActionConntrack.(ctActions := Some(ctActions));
    }
    return Ok(ActionConntrack(NxActionHeader.NX_VENDOR_ID, nxActionConntrack));
  }

  // ------------------------------------------------------------- round trip

  /** A NAT sub-action that reads back as itself: each optional field is
      present exactly when its range bit is set. */
  predicate WellFormedNat(n: NxActionNat) {
    && SerializableNat(n)
    && (n.ipAddressMin.Some? <==> HasBit(n.rangePresent, NXNATRANGEIPV4MIN))
    && (n.ipAddressMax.Some? <==> HasBit(n.rangePresent, NXNATRANGEIPV4MAX))
    && (n.portMin.Some? <==> HasBit(n.rangePresent, NXNATRANGEPROTOMIN))
    && (n.portMax.Some? <==> HasBit(n.rangePresent, NXNATRANGEPROTOMAX))
  }

  predicate WellFormedCtAction(a: CtAction) {
    match a
    case NxActionNatCase(n) => WellFormedNat(n)
    case NxActionCtMarkCase(m) => IsU32(m)
  }

  predicate WellFormedCtActions(l: seq<CtAction>) {
    && SerializableCtActions(l)
    && forall i :: 0 <= i < |l| ==> WellFormedCtAction(l[i])
  }

  /** An action that reads back: well-formed sub-actions, and an outer length
      that a signed 16-bit read gives back unchanged. */
  predicate WellFormed(c: NxActionConntrack) {
    && Serializable(c)
    && (c.ctActions.Some? ==> WellFormedCtActions(c.ctActions.value))
    && HeaderLength(c) < 0x8000
  }

  /** What a reader makes of an action: an empty sub-action list is not read
      back, since the outer length then announces none. */
  function Normalized(c: NxActionConntrack): NxActionConntrack {
    if c.ctActions == Some([]) then c.(ctActions := None) else c
  }

  /** The announced addresses that are null, and so are not written. */
  function NullAddresses(n: NxActionNat): (k: nat)
    ensures k <= 2
  {
    (if HasBit(n.rangePresent, NXNATRANGEIPV4MIN) && n.ipAddressMin.None? then 1 else 0)
    + (if HasBit(n.rangePresent, NXNATRANGEIPV4MAX) && n.ipAddressMax.None? then 1 else 0)
  }

  /** A NAT sub-action is written 4 octets short of its announced length for
      every announced address that is null, so it fills its header's length
      exactly when no announced address is null. */
  lemma NatEncodingShortfall(n: NxActionNat)
    requires SerializableNat(n)
    ensures |NatEncoding(n)| == CtActionLength(NxActionNatCase(n)) - INT_LENGTH * NullAddresses(n)
    ensures |NatEncoding(n)| == CtActionLength(NxActionNatCase(n)) <==> NullAddresses(n) == 0
  {
  }

  /** A well-formed NAT sub-action writes every field its bits announce. */
  lemma NatEncodingLength(n: NxActionNat)
    requires WellFormedNat(n)
    ensures |RangeFields(n)| == RangeFieldsLength(n.rangePresent)
    ensures |NatEncoding(n)| == CtActionLength(NxActionNatCase(n))
  {
  }

  lemma {:induction false} CtActionsEncodingLength(l: seq<CtAction>)
    requires WellFormedCtActions(l)
    ensures |CtActionsEncoding(l)| == CtActionsLength(l)
    decreases |l|
  {
    if |l| > 0 {
      if l[0].NxActionNatCase? {
        NatEncodingLength(l[0].nxActionNat);
      }
      assert WellFormedCtActions(l[1..]) by {
        forall i | 0 <= i < |l[1..]| ensures WellFormedCtAction(l[1..][i]) {
          assert l[1..][i] == l[i + 1];
        }
      }
      CtActionsEncodingLength(l[1..]);
    }
  }

  /** An address field reads back from where it was written. */
  lemma OptU32AtEncoding(s: seq<Byte>, c: nat, present: bool, v: Option<int>)
    requires (v.Some? <==> present) && (v.Some? ==> IsU32(v.value)) && At(s, c, OptAddress(present, v))
    requires present ==> c + INT_LENGTH <= |s|
    ensures OptU32At(s, c, present) == v
  {
    AtWindow(s, c, OptAddress(present, v));
  }

  /** A port field reads back from where it was written. */
  lemma OptU16AtEncoding(s: seq<Byte>, c: nat, present: bool, v: Option<int>)
    requires (v.Some? <==> present) && (present ==> IsU16(v.value)) && At(s, c, OptPort(present, v))
    requires present ==> c + SHORT_LENGTH <= |s|
    ensures OptU16At(s, c, present) == v
  {
    AtWindow(s, c, OptPort(present, v));
  }

  /** The optional fields are written one after the other, each where the
      reader looks for it. */
  lemma RangeFieldsAtParts(s: seq<Byte>, c: nat, n: NxActionNat)
    requires WellFormedNat(n) && At(s, c, RangeFields(n))
    ensures var rp := n.rangePresent;
      var c1 := c + Width(HasBit(rp, NXNATRANGEIPV4MIN), INT_LENGTH);
      var c2 := c1 + Width(HasBit(rp, NXNATRANGEIPV4MAX), INT_LENGTH);
      var c3 := c2 + Width(HasBit(rp, NXNATRANGEPROTOMIN), SHORT_LENGTH);
      && c + RangeFieldsLength(rp) <= |s|
      && c3 + Width(HasBit(rp, NXNATRANGEPROTOMAX), SHORT_LENGTH) == c + RangeFieldsLength(rp)
      && At(s, c, OptAddress(HasBit(rp, NXNATRANGEIPV4MIN), n.ipAddressMin))
      && At(s, c1, OptAddress(HasBit(rp, NXNATRANGEIPV4MAX), n.ipAddressMax))
      && At(s, c2, OptPort(HasBit(rp, NXNATRANGEPROTOMIN), n.portMin))
      && At(s, c3, OptPort(HasBit(rp, NXNATRANGEPROTOMAX), n.portMax))
  {
    var rp := n.rangePresent;
    var a1 := OptAddress(HasBit(rp, NXNATRANGEIPV4MIN), n.ipAddressMin);
    var a2 := OptAddress(HasBit(rp, NXNATRANGEIPV4MAX), n.ipAddressMax);
    var q1 := OptPort(HasBit(rp, NXNATRANGEPROTOMIN), n.portMin);
    var q2 := OptPort(HasBit(rp, NXNATRANGEPROTOMAX), n.portMax);
    NatEncodingLength(n);
    AtWindow(s, c, RangeFields(n));
    AtSplit(s, c, a1 + a2 + q1, q2);
    AtSplit(s, c, a1 + a2, q1);
    AtSplit(s, c, a1, a2);
  }

  /** The optional fields read back from where they were written. */
  lemma RangeFieldsAtEncoding(s: seq<Byte>, c: nat, n: NxActionNat)
    requires WellFormedNat(n) && At(s, c, RangeFields(n))
    ensures c + RangeFieldsLength(n.rangePresent) <= |s|
    ensures RangeFieldsAt(s, c, n.rangePresent) == (n.ipAddressMin, n.ipAddressMax, n.portMin, n.portMax)
  {
    var rp := n.rangePresent;
    var b0, b1, b2, b3 := HasBit(rp, NXNATRANGEIPV4MIN), HasBit(rp, NXNATRANGEIPV4MAX),
                          HasBit(rp, NXNATRANGEPROTOMIN), HasBit(rp, NXNATRANGEPROTOMAX);
    var c1 := c + Width(b0, INT_LENGTH);
    var c2 := c1 + Width(b1, INT_LENGTH);
    var c3 := c2 + Width(b2, SHORT_LENGTH);
    RangeFieldsAtParts(s, c, n);
    OptU32AtEncoding(s, c, b0, n.ipAddressMin);
    OptU32AtEncoding(s, c1, b1, n.ipAddressMax);
    OptU16AtEncoding(s, c2, b2, n.portMin);
    OptU16AtEncoding(s, c3, b3, n.portMax);
  }

  /** The header length, flags and range_present read back from the first 16
      octets of a NAT sub-action. */
  lemma NatFixedAtEncoding(s: seq<Byte>, p: nat, n: NxActionNat, length: int)
    requires SerializableNat(n) && 0 <= length < 0x8000
    requires At(s, p, NxActionHeader.Header(length, NXAST_NAT_SUBTYPE) + NatFixed(n))
    ensures p + NX_NAT_LENGTH <= |s|
    ensures HeaderLengthAt(s, p) == length
    ensures FromBe16(s[p + 12..p + 14]) == n.flags && RangePresentAt(s, p) == n.rangePresent
  {
    var h, f := NxActionHeader.Header(length, NXAST_NAT_SUBTYPE), NatFixed(n);
    AtSplit(s, p, h, f);
    AtSlice(s, p, h, 2, 4);
    AtSlice(s, p + 10, f, 2, 4);
    AtSlice(s, p + 10, f, 4, 6);
    assert f[2..4] == Be16(n.flags) && f[4..6] == Be16(n.rangePresent);
  }

  /** A NAT sub-action reads back from where it was written, with the padded
      length its header gives. */
  lemma NatAtEncoding(s: seq<Byte>, p: nat, n: NxActionNat)
    requires WellFormedNat(n) && At(s, p, NatEncoding(n))
    ensures NatAt(s, p) == Ok((n, |NatEncoding(n)|))
  {
    var natLength := NatActionLength(n.rangePresent);
    var length := natLength + NatPad(natLength);
    var h := NxActionHeader.Header(length, NXAST_NAT_SUBTYPE);
    var f, g, z := NatFixed(n), RangeFields(n), Zeros(NatPad(natLength));
    NatEncodingLength(n);
    AtWindow(s, p, NatEncoding(n));
    AtSplit(s, p, h + f + g, z);
    AtSplit(s, p, h + f, g);
    NatFixedAtEncoding(s, p, n, length);
    RangeFieldsAtEncoding(s, p + NX_NAT_LENGTH, n);
  }

  /** A ct_mark sub-action reads back from where it was written. */
  lemma CtMarkAtEncoding(s: seq<Byte>, p: nat, m: int)
    requires IsU32(m) && At(s, p, CtMarkEncoding(m))
    ensures CtMarkAt(s, p) == Ok(m)
  {
    var e := CtMarkEncoding(m);
    AtSlice(s, p, e, 8, 12);
    assert e[8..12] == Be32(m);
  }

  /** A well-formed sub-action writes as many octets as its length says. */
  lemma CtActionEncodingLength(a: CtAction)
    requires WellFormedCtAction(a)
    ensures |CtActionEncoding(a)| == CtActionLength(a)
  {
    if a.NxActionNatCase? {
      NatEncodingLength(a.nxActionNat);
    }
  }

  /** A written sub-action is read back first in a run that covers it. */
  lemma CtActionAtEncoding(s: seq<Byte>, p: nat, a: CtAction, remaining: int, q: nat, rest: int)
    requires WellFormedCtAction(a) && At(s, p, CtActionEncoding(a)) && remaining > 0
    requires q == p + CtActionLength(a) && rest == remaining - CtActionLength(a)
    ensures CtActionsAt(s, p, remaining) == Prefixed([a], CtActionsAt(s, q, rest))
  {
    var e := CtActionEncoding(a);
    match a {
      case NxActionNatCase(n) =>
        NatEncodingLength(n);
        AtSlice(s, p, e, 0, 2);
        assert e[..2] == NxActionHeader.Header(|e|, NXAST_NAT_SUBTYPE)[..2];
        NatAtEncoding(s, p, n);
      case NxActionCtMarkCase(m) =>
        AtSlice(s, p, e, 0, 2);
        assert e[..2] == Be16(SET_FIELD_CODE);
        CtMarkAtEncoding(s, p, m);
    }
  }

  /** A run that reads its first sub-action and then the rest of `l` reads `l`. */
  lemma CtActionsAtFirstThenRest(s: seq<Byte>, p: nat, l: seq<CtAction>, q: nat, t: seq<CtAction>)
    requires |l| > 0 && t == l[1..] && q == p + CtActionLength(l[0])
    requires CtActionsLength(l) - CtActionLength(l[0]) == CtActionsLength(t)
    requires CtActionsAt(s, p, CtActionsLength(l)) == Prefixed([l[0]], CtActionsAt(s, q, CtActionsLength(t)))
    requires CtActionsAt(s, q, CtActionsLength(t)) == Ok((t, q + CtActionsLength(t)))
    ensures CtActionsAt(s, p, CtActionsLength(l)) == Ok((l, p + CtActionsLength(l)))
  {
    assert [l[0]] + l[1..] == l;
  }

  /** The sub-actions after the first of a well-formed run are well formed. */
  lemma WellFormedRest(l: seq<CtAction>, t: seq<CtAction>)
    requires |l| > 0 && WellFormedCtActions(l) && t == l[1..]
    ensures WellFormedCtAction(l[0]) && WellFormedCtActions(t)
  {
    forall i | 0 <= i < |t| ensures WellFormedCtAction(t[i]) {
      assert t[i] == l[i + 1];
    }
  }

  /** A written run holds its first sub-action and, after it, the rest. */
  lemma AtFirstRest(s: seq<Byte>, p: nat, l: seq<CtAction>, x: CtAction, q: nat, t: seq<CtAction>)
    requires |l| > 0 && x == l[0] && t == l[1..] && q == p + CtActionLength(x)
    requires WellFormedCtAction(x) && SerializableCtActions(l) && At(s, p, CtActionsEncoding(l))
    ensures SerializableCtAction(x) && SerializableCtActions(t)
    ensures At(s, p, CtActionEncoding(x)) && At(s, q, CtActionsEncoding(t))
  {
    CtActionsEncodingUnfold(l, x, t);
    CtActionEncodingLength(x);
    AtSplitAt(s, p, CtActionEncoding(x), CtActionsEncoding(t), q);
  }

  /** The length of a run less its first sub-action's is the rest's. */
  lemma CtActionsLengthFirst(l: seq<CtAction>, t: seq<CtAction>)
    requires |l| > 0 && t == l[1..]
    ensures CtActionsLength(l) - CtActionLength(l[0]) == CtActionsLength(t) >= 0
  {
    CtActionsLengthMultipleOf8(t);
  }

  /** A run of sub-actions reads back from where it was written when the
      announced length is theirs. */
  lemma {:induction false} CtActionsAtEncoding(s: seq<Byte>, p: nat, l: seq<CtAction>)
    requires WellFormedCtActions(l) && At(s, p, CtActionsEncoding(l))
    ensures CtActionsAt(s, p, CtActionsLength(l)) == Ok((l, p + CtActionsLength(l)))
    decreases |l|
  {
    if |l| == 0 {
      assert l == [];
      CtActionsAtDone(s, p, 0, []);
    } else {
      var q, t := p + CtActionLength(l[0]), l[1..];
      WellFormedRest(l, t);
      AtFirstRest(s, p, l, l[0], q, t);
      CtActionsLengthFirst(l, t);
      CtActionAtEncoding(s, p, l[0], CtActionsLength(l), q, CtActionsLength(t));
      CtActionsAtEncoding(s, q, t);
      CtActionsAtFirstThenRest(s, p, l, q, t);
    }
  }

  /** The header length and the fixed fields read back from the first 24
      octets of an action. */
  lemma ConntrackFixedAtEncoding(s: seq<Byte>, p: nat, c: NxActionConntrack, length: int)
    requires Serializable(c) && 0 <= length < 0x8000
    requires At(s, p, NxActionHeader.Header(length, NXAST_CONNTRACK_SUBTYPE) + ConntrackFixed(c))
    ensures p + CT_LENGTH <= |s|
    ensures HeaderLengthAt(s, p) == length
    ensures ConntrackFixedAt(s, p) == c.(ctActions := None)
  {
    var h, f := NxActionHeader.Header(length, NXAST_CONNTRACK_SUBTYPE), ConntrackFixed(c);
    AtSplit(s, p, h, f);
    AtSlice(s, p, h, 2, 4);
    AtSlice(s, p + 10, f, 0, 2);
    AtSlice(s, p + 10, f, 2, 6);
    AtSlice(s, p + 10, f, 6, 8);
    AtSlice(s, p + 10, f, 8, 9);
    assert f[0..2] == Be16(c.flags) && f[2..6] == Be32(c.zoneSrc) && f[6..8] == Be16(c.conntrackZone);
    assert f[8] == c.recircTable;
  }

  /** `ParseAt` when the header announces sub-actions that read back. */
  lemma ParseAtWithActions(s: seq<Byte>, p: nat, c: NxActionConntrack, d: NxActionConntrack,
                           l: seq<CtAction>, rest: int, end: nat)
    requires p + CT_LENGTH <= |s| && rest > 0 && HeaderLengthAt(s, p) == CT_LENGTH + rest
    requires c.ctActions == Some(l) && ConntrackFixedAt(s, p) == c.(ctActions := None) && d == c
    requires CtActionsAt(s, p + CT_LENGTH, rest) == Ok((l, p + CT_LENGTH + rest)) && end == p + CT_LENGTH + rest
    ensures ParseAt(s, p) == Ok((ActionConntrack(NxActionHeader.NX_VENDOR_ID, d), end))
  {
  }

  /** `ParseAt` when the header announces no sub-actions. */
  lemma ParseAtWithoutActions(s: seq<Byte>, p: nat, c: NxActionConntrack, d: NxActionConntrack, end: nat)
    requires p + CT_LENGTH <= |s| && HeaderLengthAt(s, p) == CT_LENGTH
    requires ConntrackFixedAt(s, p) == c.(ctActions := None) && d == c.(ctActions := None)
    requires end == p + CT_LENGTH
    ensures ParseAt(s, p) == Ok((ActionConntrack(NxActionHeader.NX_VENDOR_ID, d), end))
  {
  }

  /** A written action holds its header and fixed fields, then its sub-actions. */
  lemma EncodingAtParts(s: seq<Byte>, p: nat, input: Action)
    requires WellFormed(input.nxActionConntrack) && At(s, p, Encoding(input))
    ensures var c := input.nxActionConntrack;
      && At(s, p, NxActionHeader.Header(HeaderLength(c), NXAST_CONNTRACK_SUBTYPE) + ConntrackFixed(c))
      && (c.ctActions.Some? ==> At(s, p + CT_LENGTH, CtActionsEncoding(c.ctActions.value)))
      && |Encoding(input)| == HeaderLength(c)
  {
    var c := input.nxActionConntrack;
    var h, f := NxActionHeader.Header(HeaderLength(c), NXAST_CONNTRACK_SUBTYPE), ConntrackFixed(c);
    HeaderLengthIsFixedPartPlusActions(c);
    AtSplit(s, p, h + f, CtActionsPart(c));
    if c.ctActions.Some? {
      CtActionsEncodingLength(c.ctActions.value);
    }
  }

  /** What the reader finds at `p` when `c` was written there: the header
      length, the fixed fields and, when there are sub-actions, the run of
      them that the header announces. */
  predicate PartsAt(s: seq<Byte>, p: nat, c: NxActionConntrack) {
    && p + CT_LENGTH <= |s|
    && HeaderLengthAt(s, p) == HeaderLength(c) == CT_LENGTH + ActionLength(c)
    && ConntrackFixedAt(s, p) == c.(ctActions := None)
    && ActionsAt(s, p, c)
  }

  /** `PartsAt`, handed from the writing side of the round trip to the
      reading side as one fact. */
  predicate Written(s: seq<Byte>, p: nat, c: NxActionConntrack) {
    PartsAt(s, p, c)
  }

  /** The reader finds the sub-actions of `c`, if it has any, after the fixed
      part. */
  predicate ActionsAt(s: seq<Byte>, p: nat, c: NxActionConntrack) {
    c.ctActions.Some? && |c.ctActions.value| > 0 ==>
      var l := c.ctActions.value;
      && CtActionsLength(l) > 0
      && CtActionsAt(s, p + CT_LENGTH, CtActionsLength(l)) == Ok((l, p + CT_LENGTH + CtActionsLength(l)))
  }

  /** Written sub-actions are what the reader finds. */
  lemma ActionsAtEncoding(s: seq<Byte>, p: nat, c: NxActionConntrack)
    requires WellFormed(c)
    requires c.ctActions.Some? ==> At(s, p + CT_LENGTH, CtActionsEncoding(c.ctActions.value))
    ensures ActionsAt(s, p, c)
  {
    if c.ctActions.Some? && |c.ctActions.value| > 0 {
      var q, l := p + CT_LENGTH, c.ctActions.value;
      NonEmptyActionsAt(s, q, l);
    }
  }

  /** A run of at least one written sub-action has a positive length and
      reads back. */
  lemma NonEmptyActionsAt(s: seq<Byte>, q: nat, l: seq<CtAction>)
    requires |l| > 0 && WellFormedCtActions(l) && At(s, q, CtActionsEncoding(l))
    ensures CtActionsLength(l) > 0 && CtActionsAt(s, q, CtActionsLength(l)) == Ok((l, q + CtActionsLength(l)))
  {
    CtActionsLengthFirst(l, l[1..]);
    CtActionsAtEncoding(s, q, l);
  }

  /** The header and the fixed fields read back, and the header announces the
      sub-actions' length. */
  lemma FixedPartsAt(s: seq<Byte>, p: nat, c: NxActionConntrack)
    requires WellFormed(c)
    requires At(s, p, NxActionHeader.Header(HeaderLength(c), NXAST_CONNTRACK_SUBTYPE) + ConntrackFixed(c))
    ensures p + CT_LENGTH <= |s|
    ensures HeaderLengthAt(s, p) == HeaderLength(c) == CT_LENGTH + ActionLength(c)
    ensures ConntrackFixedAt(s, p) == c.(ctActions := None)
  {
    HeaderLengthIsFixedPartPlusActions(c);
    ConntrackFixedAtEncoding(s, p, c, HeaderLength(c));
  }

  /** What a written action holds is what the reader finds. */
  lemma EncodingPartsAt(s: seq<Byte>, p: nat, input: Action)
    requires WellFormed(input.nxActionConntrack) && At(s, p, Encoding(input))
    ensures |Encoding(input)| == HeaderLength(input.nxActionConntrack)
    ensures Written(s, p, input.nxActionConntrack)
  {
    var c := input.nxActionConntrack;
    EncodingAtParts(s, p, input);
    FixedPartsAt(s, p, c);
    ActionsAtEncoding(s, p, c);
  }

  /** Normalizing keeps an action whose sub-action list is not empty. */
  lemma NormalizedWithActions(c: NxActionConntrack)
    requires c.ctActions.Some? && |c.ctActions.value| > 0
    ensures Normalized(c) == c
  {
    assert c.ctActions != Some([]);
  }

  /** What the reader finds makes `ParseAt` give the action back. */
  lemma PartsReadBack(s: seq<Byte>, p: nat, c: NxActionConntrack)
    requires Written(s, p, c)
    ensures ParseAt(s, p) == Ok((ActionConntrack(NxActionHeader.NX_VENDOR_ID, Normalized(c)), p + HeaderLength(c)))
  {
    if c.ctActions.Some? && |c.ctActions.value| > 0 {
      var l := c.ctActions.value;
      NormalizedWithActions(c);
      ParseAtWithActions(s, p, c, Normalized(c), l, CtActionsLength(l), p + HeaderLength(c));
    } else {
      ParseAtWithoutActions(s, p, c, Normalized(c), p + HeaderLength(c));
    }
  }

  /** An action reads back from where it was written, up to the end of what
      was written: the reader gives the Nicira experimenter id, and an empty
      sub-action list comes back as none. */
  lemma ParseAtEncoding(s: seq<Byte>, p: nat, input: Action)
    requires WellFormed(input.nxActionConntrack) && At(s, p, Encoding(input))
    ensures |Encoding(input)| == HeaderLength(input.nxActionConntrack)
    ensures ParseAt(s, p)
      == Ok((ActionConntrack(NxActionHeader.NX_VENDOR_ID, Normalized(input.nxActionConntrack)),
             p + HeaderLength(input.nxActionConntrack)))
  {
    EncodingPartsAt(s, p, input);
    PartsReadBack(s, p, input.nxActionConntrack);
  }

  /** A client that writes an action into an empty buffer and reads the buffer
      back gets the action as the reader sees it. */
  method RoundTrip(input: Action) returns (r: Result<Action>)
    requires WellFormed(input.nxActionConntrack)
    ensures r == Ok(ActionConntrack(NxActionHeader.NX_VENDOR_ID, Normalized(input.nxActionConntrack)))
  {
    var buffer := new ByteBuf.Wrap([]);
    Serialize(input, buffer);
    var e := Encoding(input);
    assert buffer.bytes == e;
    assert e[0..|e|] == e;
    AtWindow(e, 0, e);
    ParseAtEncoding(e, 0, input);
    r := Deserialize(buffer);
  }
}
