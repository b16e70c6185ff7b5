/** Octets and the big-endian (network order) integer layouts that Netty's
    `ByteBuf` reads and writes. Java's `writeShort`/`writeInt`/`writeByte` keep
    only the low 16/32/8 bits of their argument; `readShort` sign-extends. */
module Bytes {

  type Byte = b: int | 0 <= b < 0x100

  predicate IsU8(v: int) { 0 <= v < 0x100 }
  predicate IsU16(v: int) { 0 <= v < 0x1_0000 }
  predicate IsU32(v: int) { 0 <= v < 0x1_0000_0000 }

  /** `readUnsignedShort`: two octets, most significant first. */
  function FromBe16(s: seq<Byte>): (v: int)
    requires |s| == 2
    ensures IsU16(v)
    ensures v / 0x100 == s[0] && v % 0x100 == s[1]
  {
    (s[0] as int) * 0x100 + (s[1] as int)
  }

  /** `writeShort` of an unsigned 16-bit value. */
  function Be16(v: int): (s: seq<Byte>)
    requires IsU16(v)
    ensures |s| == 2 && FromBe16(s) == v
  {
    [v / 0x100, v % 0x100]
  }

  /** `readUnsignedInt` / `readUint32`. */
  function FromBe32(s: seq<Byte>): (v: int)
    requires |s| == 4
    ensures IsU32(v)
    ensures v / 0x1_0000 == FromBe16(s[..2]) && v % 0x1_0000 == FromBe16(s[2..])
  {
    FromBe16(s[..2]) * 0x1_0000 + FromBe16(s[2..])
  }

  /** `writeInt` of an unsigned 32-bit value. */
  function Be32(v: int): (s: seq<Byte>)
    requires IsU32(v)
    ensures |s| == 4 && FromBe32(s) == v
  {
    var hi, lo := Be16(v / 0x1_0000), Be16(v % 0x1_0000);
    assert (hi + lo)[..2] == hi && (hi + lo)[2..] == lo;
    hi + lo
  }

  /** `readShort`: two octets as a two's-complement signed value. */
  function FromBe16Signed(s: seq<Byte>): (v: int)
    requires |s| == 2
    ensures -0x8000 <= v < 0x8000
    ensures v % 0x1_0000 == FromBe16(s)
  {
    var u := FromBe16(s);
    if u >= 0x8000 then u - 0x1_0000 else u
  }

  /** The low 16 bits of a Java int, which is what `writeShort` keeps. */
  function Low16(v: int): (u: int)
    ensures IsU16(u)
  {
    v % 0x1_0000
  }

  /** A Java `short` holding `v`: the low 16 bits read as two's complement,
      which is what a compound assignment to a `short` leaves. */
  function Signed16(v: int): (w: int)
    ensures -0x8000 <= w < 0x8000
    ensures w == FromBe16Signed(Be16(Low16(v)))
  {
    var u := Low16(v);
    if u >= 0x8000 then u - 0x1_0000 else u
  }

  /** A value that fits a `short` is kept as it is. */
  lemma Signed16OfShort(v: int)
    requires -0x8000 <= v < 0x8000
    ensures Signed16(v) == v
  {
  }

  /** The low 32 bits of a Java int or long, which is what `writeInt` keeps. */
  function Low32(v: int): (u: int)
    ensures IsU32(u)
  {
    v % 0x1_0000_0000
  }

  /** The low 8 bits, which is what `writeByte` keeps. */
  function Low8(v: int): (u: int)
    ensures IsU8(u)
  {
    v % 0x100
  }

  /** `writeZero(n)`. */
  function Zeros(n: nat): (s: seq<Byte>)
    ensures |s| == n
  {
    seq(n, _ => 0 as Byte)
  }

  /** Decoding a 16-bit layout and encoding it again gives back the octets. */
  lemma Be16OfFromBe16(s: seq<Byte>)
    requires |s| == 2
    ensures Be16(FromBe16(s)) == s
  {
  }

  /** Decoding a 32-bit layout and encoding it again gives back the octets. */
  lemma Be32OfFromBe32(s: seq<Byte>)
    requires |s| == 4
    ensures Be32(FromBe32(s)) == s
  {
    var v := FromBe32(s);
    Be16OfFromBe16(s[..2]);
    Be16OfFromBe16(s[2..]);
    assert s == s[..2] + s[2..];
  }

  /** Distinct 16-bit values have distinct layouts. */
  lemma Be16Injective(a: int, b: int)
    requires IsU16(a) && IsU16(b) && Be16(a) == Be16(b)
    ensures a == b
  {
    assert FromBe16(Be16(a)) == FromBe16(Be16(b));
  }

  /** Appending a concatenation is appending its parts in turn. */
  lemma AppendAssoc(a: seq<Byte>, b: seq<Byte>, c: seq<Byte>)
    ensures a + (b + c) == a + b + c
  {
  }

  /** `s` holds `e` from position `p` on, octet by octet. */
  predicate At(s: seq<Byte>, p: nat, e: seq<Byte>)
    decreases |e|
  {
    if |e| == 0 then p <= |s| else p < |s| && s[p] == e[0] && At(s, p + 1, e[1..])
  }

  /** `At` is the window `s[p..p + |e|]` holding `e`. */
  lemma {:induction false} AtWindow(s: seq<Byte>, p: nat, e: seq<Byte>)
    ensures At(s, p, e) <==> p + |e| <= |s| && s[p..p + |e|] == e
    decreases |e|
  {
    if |e| > 0 {
      var t := e[1..];
      assert |t| == |e| - 1 && e == [e[0]] + t;
      AtWindow(s, p + 1, t);
      if p + |e| <= |s| {
        var w := s[p..p + |e|];
        assert w == [s[p]] + s[p + 1..p + 1 + |t|];
        if w == e {
          assert s[p] == e[0] && s[p + 1..p + 1 + |t|] == t;
        }
      }
    }
  }

  /** Any part of a window is the same part of what it holds. */
  lemma AtSlice(s: seq<Byte>, p: nat, e: seq<Byte>, i: nat, j: nat)
    requires At(s, p, e) && i <= j <= |e|
    ensures p + |e| <= |s| && s[p + i..p + j] == e[i..j]
  {
    AtWindow(s, p, e);
    forall k | 0 <= k < j - i
      ensures s[p + i..p + j][k] == e[i..j][k]
    {
      assert s[p + i..p + j][k] == s[p + i + k] == s[p..p + |e|][i + k];
    }
  }

  /** A window holding `a + b` holds `a` and then `b`. */
  lemma AtSplit(s: seq<Byte>, p: nat, a: seq<Byte>, b: seq<Byte>)
    requires At(s, p, a + b)
    ensures At(s, p, a) && At(s, p + |a|, b)
  {
    AtSlice(s, p, a + b, 0, |a|);
    AtSlice(s, p, a + b, |a|, |a| + |b|);
    assert (a + b)[0..|a|] == a && (a + b)[|a|..|a| + |b|] == b;
    AtWindow(s, p, a);
    AtWindow(s, p + |a|, b);
  }

  /** The same, with the position after `a` named by the caller. */
  lemma AtSplitAt(s: seq<Byte>, p: nat, a: seq<Byte>, b: seq<Byte>, q: nat)
    requires At(s, p, a + b) && q == p + |a|
    ensures At(s, p, a) && At(s, q, b)
  {
    AtSplit(s, p, a, b);
  }
}
