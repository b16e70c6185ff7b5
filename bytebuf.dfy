/** A model of the part of Netty's `ByteBuf` the codecs use: a growable octet
    sequence with a reader index. Everything written so far is `bytes`; the
    writer index is `|bytes|`. A read or skip past the writer index fails with
    IndexOutOfBoundsException, a negative skip with IllegalArgumentException,
    and in both cases the reader index is left where it was. */
module ByteBufs {
  import opened Wrappers
  import opened Bytes

  /** The outcome of a read paired with the reader index it stopped at; a
      failed read has no end position. */
  function WithEnd<T>(r: Result<T>, end: nat): Result<(T, nat)> {
    match r
    case Ok(v) => Ok((v, end))
    case Err(e) => Err(e)
  }

  class ByteBuf {
    var bytes: seq<Byte>
    var readerIndex: nat

    ghost predicate Valid()
      reads this
    {
      readerIndex <= |bytes|
    }

    /** `readableBytes()`. */
    function Readable(): nat
      reads this
      requires Valid()
    {
      |bytes| - readerIndex
    }

    /** A buffer holding `s`, positioned at its start. */
    constructor Wrap(s: seq<Byte>)
      ensures Valid() && bytes == s && readerIndex == 0
    {
      bytes := s;
      readerIndex := 0;
    }

    /** `readUnsignedByte()` / `readUint8`. */
    method ReadUint8() returns (r: Result<int>)
      requires Valid()
      modifies this`readerIndex
      ensures Valid()
      ensures if old(Readable()) >= 1
        then r == Ok(bytes[old(readerIndex)]) && readerIndex == old(readerIndex) + 1
        else r == Err(IndexOutOfBounds) && readerIndex == old(readerIndex)
    {
      if readerIndex + 1 > |bytes| {
        return Err(IndexOutOfBounds);
      }
      r := Ok(bytes[readerIndex]);
      readerIndex := readerIndex + 1;
    }

    /** `readUnsignedShort()` / `readUint16`. */
    method ReadUint16() returns (r: Result<int>)
      requires Valid()
      modifies this`readerIndex
      ensures Valid()
      ensures if old(Readable()) >= 2
        then r == Ok(FromBe16(bytes[old(readerIndex)..old(readerIndex) + 2]))
          && readerIndex == old(readerIndex) + 2
        else r == Err(IndexOutOfBounds) && readerIndex == old(readerIndex)
    {
      if readerIndex + 2 > |bytes| {
        return Err(IndexOutOfBounds);
      }
      r := Ok(FromBe16(bytes[readerIndex..readerIndex + 2]));
      readerIndex := readerIndex + 2;
    }

    /** `readShort()`: the next two octets, sign-extended. */
    method ReadShort() returns (r: Result<int>)
      requires Valid()
      modifies this`readerIndex
      ensures Valid()
      ensures if old(Readable()) >= 2
        then r == Ok(FromBe16Signed(bytes[old(readerIndex)..old(readerIndex) + 2]))
          && readerIndex == old(readerIndex) + 2
        else r == Err(IndexOutOfBounds) && readerIndex == old(readerIndex)
    {
      if readerIndex + 2 > |bytes| {
        return Err(IndexOutOfBounds);
      }
      r := Ok(FromBe16Signed(bytes[readerIndex..readerIndex + 2]));
      readerIndex := readerIndex + 2;
    }

    /** `readUnsignedInt()` / `readUint32`. */
    method ReadUint32() returns (r: Result<int>)
      requires Valid()
      modifies this`readerIndex
      ensures Valid()
      ensures if old(Readable()) >= 4
        then r == Ok(FromBe32(bytes[old(readerIndex)..old(readerIndex) + 4]))
          && readerIndex == old(readerIndex) + 4
        else r == Err(IndexOutOfBounds) && readerIndex == old(readerIndex)
    {
      if readerIndex + 4 > |bytes| {
        return Err(IndexOutOfBounds);
      }
      r := Ok(FromBe32(bytes[readerIndex..readerIndex + 4]));
      readerIndex := readerIndex + 4;
    }

    /** `readBytes(byte[n])`: the next `n` octets, verbatim. */
    method ReadBytes(n: nat) returns (r: Result<seq<Byte>>)
      requires Valid()
      modifies this`readerIndex
      ensures Valid()
      ensures if old(Readable()) >= n
        then r == Ok(bytes[old(readerIndex)..old(readerIndex) + n])
          && readerIndex == old(readerIndex) + n
        else r == Err(IndexOutOfBounds) && readerIndex == old(readerIndex)
    {
      if readerIndex + n > |bytes| {
        return Err(IndexOutOfBounds);
      }
      r := Ok(bytes[readerIndex..readerIndex + n]);
      readerIndex := readerIndex + n;
    }

    /** `skipBytes(n)`; `n` is a Java int and may be negative. */
    method SkipBytes(n: int) returns (r: Result<()>)
      requires Valid()
      modifies this`readerIndex
      ensures Valid()
      ensures if n < 0 then r == Err(IllegalArgument) && readerIndex == old(readerIndex)
        else if old(Readable()) >= n then r == Ok(()) && readerIndex == old(readerIndex) + n
        else r == Err(IndexOutOfBounds) && readerIndex == old(readerIndex)
    {
      if n < 0 {
        return Err(IllegalArgument);
      }
      if readerIndex + n > |bytes| {
        return Err(IndexOutOfBounds);
      }
      readerIndex := readerIndex + n;
      r := Ok(());
    }

    /** `setIndex(i, writerIndex())`: moves the reader index back to a mark. */
    method SetReaderIndex(i: nat)
      requires Valid() && i <= |bytes|
      modifies this`readerIndex
      ensures Valid() && readerIndex == i
    {
      readerIndex := i;
    }

    /** `writeByte(v)`: keeps the low 8 bits. */
    method WriteByte(v: int)
      modifies this`bytes
      ensures bytes == old(bytes) + [Low8(v)]
    {
      bytes := bytes + [Low8(v)];
    }

    /** `writeShort(v)`: keeps the low 16 bits, most significant octet first. */
    method WriteShort(v: int)
      modifies this`bytes
      ensures bytes == old(bytes) + Be16(Low16(v))
    {
      bytes := bytes + Be16(Low16(v));
    }

    /** `writeInt(v)`: keeps the low 32 bits, most significant octet first. */
    method WriteInt(v: int)
      modifies this`bytes
      ensures bytes == old(bytes) + Be32(Low32(v))
    {
      bytes := bytes + Be32(Low32(v));
    }

    /** `writeZero(n)`. */
    method WriteZero(n: nat)
      modifies this`bytes
      ensures bytes == old(bytes) + Zeros(n)
    {
      bytes := bytes + Zeros(n);
    }

    /** `writeBytes(s)`. */
    method WriteBytes(s: seq<Byte>)
      modifies this`bytes
      ensures bytes == old(bytes) + s
    {
      bytes := bytes + s;
    }
  }
}
