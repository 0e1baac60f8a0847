/** Reads the message that is being sent: a type byte followed by the data of a source
  * (the read callback in components/core/src/memfault_data_packetizer.c). */
module MessageReader {
  import opened Bytes
  import DataSource
  import RleSpec
  import DataSourceRle

  const HEADER_SIZE := 1
  const RLE_ENABLE_MASK := 0x80

  /** Six bits of the type byte say what kind of message it is. */
  type MessageType = t: nat | t < 0x40

  /** The byte in front of every message: what kind it is, and whether its data is run-length encoded. */
  function TypeByte(msgType: MessageType, useRle: bool): byte
  {
    (if useRle then msgType + RLE_ENABLE_MASK else msgType) as byte
  }

  /** What is sent for a stored message. */
  function Framed(msgType: MessageType, useRle: bool, stored: seq<byte>): (s: seq<byte>)
    ensures |s| >= 1
  {
    [TypeByte(msgType, useRle)] + if useRle then RleSpec.Encode(stored) else stored
  }

  /** The offset in the source's data that belongs to an offset in the message. */
  function SourceOffset(offset: nat): nat {
    if offset < HEADER_SIZE then 0 else offset - HEADER_SIZE
  }

  class Reader {
    const rle: DataSourceRle.RleSource
    var msgType: MessageType
    var useRle: bool
    var source: DataSource.Source

    constructor (rle: DataSourceRle.RleSource, source: DataSource.Source)
      ensures this.rle == rle
    {
      this.rle, this.source, msgType, useRle := rle, source, 0, false;
    }

    /** `stored` is the message of the source that is being sent, and the bytes of what is sent for
      * it before `offset` have been read. */
    ghost predicate At(stored: seq<byte>, offset: nat)
      reads this, source, rle, rle.rle
    {
      && source.queue != [] && source.queue[0] == stored
      && (useRle ==>
            rle.active == source && rle.Reading(stored) && rle.currEncodedLen == SourceOffset(offset))
    }

    /** Copies `len` bytes of the message, from `offset` on, to `buf` at index `at`. */
    method Read(offset: nat, buf: array<byte>, at: nat, len: nat, ghost stored: seq<byte>)
      requires At(stored, offset)
      requires at + len <= buf.Length && buf != rle.tempBuf
      requires offset + len <= |Framed(msgType, useRle, stored)|
      modifies rle, rle.rle, rle.tempBuf, buf
      ensures At(stored, offset + len)
      ensures !useRle ==> unchanged(rle) && unchanged(rle.rle)
      ensures buf[..] == Splice(old(buf[..]), at, Framed(msgType, useRle, stored)[offset..offset + len])
    {
      hide Splice, RleSpec.Encode, DataSourceRle.RleSource.Reading, Framed;
      ghost var was := buf[..];
      ghost var all := Framed(msgType, useRle, stored);
      var readOffset := 0;
      var headerBytes := 0;
      if offset < HEADER_SIZE {
        headerBytes := Min(HEADER_SIZE - offset, len);
        var header := [TypeByte(msgType, useRle)];
        CopyInto(buf, at, header[offset..offset + headerBytes]);
        HeaderOfFramed(msgType, useRle, stored, offset, headerBytes);
      } else {
        readOffset := offset - HEADER_SIZE;
        SpliceNothing(was, at);
        assert all[offset..offset] == [];
      }
      if headerBytes == len {
        return;
      }

      ghost var mid := buf[..];
      var n := len - headerBytes;
      DataOfFramed(msgType, useRle, stored, readOffset, n);
      if useRle {
        var _ := rle.ReadMsg(readOffset, buf, at + headerBytes, n, stored);
      } else {
        var _ := source.ReadMsg(readOffset, buf, at + headerBytes, n);
      }
      SpliceTwice(was, at, all[offset..offset + headerBytes], all[offset + headerBytes..offset + len]);
      SplitRange(all, offset, offset + headerBytes, offset + len);
    }
  }

  lemma HeaderOfFramed(msgType: MessageType, useRle: bool, stored: seq<byte>, from: nat, n: nat)
    requires from + n <= HEADER_SIZE
    ensures Framed(msgType, useRle, stored)[from..from + n] == [TypeByte(msgType, useRle)][from..from + n]
  {
    hide RleSpec.Encode;
  }

  lemma DataOfFramed(msgType: MessageType, useRle: bool, stored: seq<byte>, from: nat, n: nat)
    requires HEADER_SIZE + from + n <= |Framed(msgType, useRle, stored)|
    ensures from + n <= |if useRle then RleSpec.Encode(stored) else stored|
    ensures var data := if useRle then RleSpec.Encode(stored) else stored;
            Framed(msgType, useRle, stored)[HEADER_SIZE + from..HEADER_SIZE + from + n] == data[from..from + n]
  {
    hide RleSpec.Encode;
  }
}
