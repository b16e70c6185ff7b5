/** TcpFlagsEntryDeserializer: the ONF experimenter TCP-flags match entry as
    read into the plugin's own match builder: entry header, 4-octet
    experimenter id, the flags and, when has-mask is set, a 16-bit mask. */
module TcpFlagsEntryDeserializer {
  import opened Wrappers
  import opened Bytes
  import opened ByteBufs
  import opened MatchEntries

  datatype TcpFlagsMatch = TcpFlagsMatch(tcpFlags: int, tcpFlagsMask: Option<int>)

  /** The part of `MatchBuilder` this deserializer touches. */
  class MatchBuilder {
    var tcpFlagsMatch: Option<TcpFlagsMatch>

    constructor ()
      ensures tcpFlagsMatch == None
    {
      tcpFlagsMatch := None;
    }
  }

  /** The octets an entry occupies, given its has-mask flag. */
  function EntryLength(hasMask: bool): nat {
    HEADER_LENGTH + 4 + 2 + (if hasMask then 2 else 0)
  }

  /** A whole entry starts at `p`. */
  predicate EntryPresent(s: seq<Byte>, p: nat) {
    p + HEADER_LENGTH <= |s| && p + EntryLength(HeaderHasMask(s, p)) <= |s|
  }

  /** The match read from the entry that starts at `p`. */
  function EntryAt(s: seq<Byte>, p: nat): (m: TcpFlagsMatch)
    requires EntryPresent(s, p)
    ensures m.tcpFlagsMask.Some? <==> HeaderHasMask(s, p)
  {
    var f := p + HEADER_LENGTH + 4;
    TcpFlagsMatch(FromBe16(s[f..f + 2]),
                  if HeaderHasMask(s, p) then Some(FromBe16(s[f + 2..f + 4])) else None)
  }

  /** `deserializeEntry`. The first TCP-flags entry is stored on the builder; a
      second one is a malformed match and leaves the stored one in place. */
  method DeserializeEntry(message: ByteBuf, builder: MatchBuilder) returns (r: Result<()>)
    requires message.Valid()
    modifies message`readerIndex, builder`tcpFlagsMatch
    ensures message.Valid()
    ensures r.Ok? <==> EntryPresent(message.bytes, old(message.readerIndex)) && old(builder.tcpFlagsMatch).None?
    ensures EntryPresent(message.bytes, old(message.readerIndex)) ==>
      && message.readerIndex == old(message.readerIndex) + EntryLength(HeaderHasMask(message.bytes, old(message.readerIndex)))
      && (old(builder.tcpFlagsMatch).Some? ==> r == Err(MalformedMatch("tcpFlagsMatch")))
    ensures r.Ok? ==> builder.tcpFlagsMatch == Some(EntryAt(message.bytes, old(message.readerIndex)))
    ensures !r.Ok? ==> builder.tcpFlagsMatch == old(builder.tcpFlagsMatch)
  {
    var hasMask :- ReadHeader(message);
    var _ :- message.ReadUint32();
    var flags :- message.ReadUint16();
    var mask: Option<int> := None;
    if hasMask {
      var m :- message.ReadUint16();
      mask := Some(m);
    }
    if builder.tcpFlagsMatch == None {
      builder.tcpFlagsMatch := Some(TcpFlagsMatch(flags, mask));
      r := Ok(());
    } else {
      r := Err(MalformedMatch("tcpFlagsMatch"));
    }
  }

  /** The experimenter class, the ONF experimenter id and the ONF TCP-flags
      field code (`EncodeConstants.ONF_EXPERIMENTER_ID`,
      `EncodeConstants.ONFOXM_ET_TCP_FLAGS`). */
  const EXPERIMENTER_CLASS: int := 0xFFFF
  const ONF_EXPERIMENTER_ID: int := 0x4F4E_4600
  const ONFOXM_ET_TCP_FLAGS: int := 42

  predicate IsWireMatch(m: TcpFlagsMatch) {
    IsU16(m.tcpFlags) && (m.tcpFlagsMask.Some? ==> IsU16(m.tcpFlagsMask.value))
  }

  /** The wire form of a TCP-flags entry. */
  function Layout(m: TcpFlagsMatch): (s: seq<Byte>)
    requires IsWireMatch(m)
    ensures |s| == EntryLength(m.tcpFlagsMask.Some?)
    ensures EntryPresent(s, 0) && EntryAt(s, 0) == m
  {
    var hasMask := m.tcpFlagsMask.Some?;
    var h := Header(EXPERIMENTER_CLASS, ONFOXM_ET_TCP_FLAGS, hasMask, EntryLength(hasMask) - HEADER_LENGTH);
    var s := h + Be32(ONF_EXPERIMENTER_ID) + Be16(m.tcpFlags)
      + (if hasMask then Be16(m.tcpFlagsMask.value) else []);
    assert s[..HEADER_LENGTH] == h;
    assert s[8..10] == Be16(m.tcpFlags);
    assert hasMask ==> s[10..12] == Be16(m.tcpFlagsMask.value);
    s
  }

  /** Two TCP-flags entries for one match: the first is stored, the second is
      rejected as malformed, and the builder keeps the first. */
  method ReadTwoEntries(m1: TcpFlagsMatch, m2: TcpFlagsMatch)
    returns (first: Result<()>, second: Result<()>, stored: Option<TcpFlagsMatch>)
    requires IsWireMatch(m1) && IsWireMatch(m2)
    ensures first.Ok? && second == Err(MalformedMatch("tcpFlagsMatch")) && stored == Some(m1)
  {
    var l1, l2 := Layout(m1), Layout(m2);
    assert (l1 + l2)[..|l1|] == l1;
    assert (l1 + l2)[|l1|..] == l2;
    EntryAtPrefix(l1, l2);
    EntryAtSuffix(l1, l2);
    var message := new ByteBuf.Wrap(l1 + l2);
    var builder := new MatchBuilder();
    assert HeaderHasMask(l1 + l2, 0) == HeaderHasMask(l1, 0);
    first := DeserializeEntry(message, builder);
    assert message.readerIndex == |l1|;
    second := DeserializeEntry(message, builder);
    stored := builder.tcpFlagsMatch;
  }

  /** What follows a whole entry does not change what is read from it. */
  lemma EntryAtPrefix(a: seq<Byte>, b: seq<Byte>)
    requires EntryPresent(a, 0)
    ensures EntryPresent(a + b, 0) && EntryAt(a + b, 0) == EntryAt(a, 0)
  {
    var f := HEADER_LENGTH + 4;
    assert (a + b)[f..f + 2] == a[f..f + 2];
    if HeaderHasMask(a, 0) {
      assert (a + b)[f + 2..f + 4] == a[f + 2..f + 4];
    }
  }

  /** What precedes an entry does not change what is read from it. */
  lemma EntryAtSuffix(a: seq<Byte>, b: seq<Byte>)
    requires EntryPresent(b, 0)
    ensures EntryPresent(a + b, |a|) && EntryAt(a + b, |a|) == EntryAt(b, 0)
  {
    var f := HEADER_LENGTH + 4;
    assert (a + b)[|a| + f..|a| + f + 2] == b[f..f + 2];
    if HeaderHasMask(b, 0) {
      assert (a + b)[|a| + f + 2..|a| + f + 4] == b[f + 2..f + 4];
    }
  }
}
