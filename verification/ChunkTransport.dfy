/** Cuts the message of a reader into chunks (components/util/src/memfault_chunk_transport.c). */
module ChunkTransport {
  import opened Bytes
  import V = Varint
  import C = Crc16
  import opened Chunking
  import opened MessageReader

  const SCRUB_PATTERN: byte := 0xBA

  /** The chunk has been built up to index |done|. */
  lemma SpliceExtends(buf: seq<byte>, k: nat, piece: seq<byte>)
    requires k + |piece| <= |buf|
    ensures Splice(buf, k, piece)[..k + |piece|] == buf[..k] + piece
  {
  }

  lemma SpliceParts(buf: seq<byte>, k: nat, piece: seq<byte>)
    requires k + |piece| <= |buf|
    ensures var s := Splice(buf, k, piece);
            && s[..k + |piece|] == buf[..k] + piece
            && s[k..k + |piece|] == piece
  {
  }

  lemma HeaderAndVarint(buf: seq<byte>, h: byte, varint: seq<byte>)
    requires 1 + |varint| <= |buf|
    ensures Splice(buf, 1, varint)[0 := h][..1 + |varint|] == [h] + varint
  {
  }

  /** The pieces that are written one after the other make up the chunk. */
  lemma ChunkIsComplete(msg: seq<byte>, offset: nat, space: nat, multiCall: bool)
    requires offset <= |msg| && |msg| + 3 < UINT32_LIMIT && space >= MIN_CHUNK_BUF_LEN
    ensures var p := PlanChunk(|msg|, offset, space, multiCall);
            var c := NextChunk(msg, offset, space, multiCall);
            && c.taken == p.taken && c.more == p.more
            && c.bytes == p.lead + msg[offset..offset + p.taken] +
                          (if p.more then [] else CrcBytes(C.Crc(C.INITIAL_VALUE, msg[..offset + p.taken])))
  {
    hide PlanChunk, CrcBytes, C.Crc;
    NextChunkMakesProgress(msg, offset, space, multiCall);
    assert msg[..|msg|] == msg;
  }

  lemma CrcExtends(msg: seq<byte>, a: nat, b: nat)
    requires a <= b <= |msg|
    ensures C.Crc(C.Crc(C.INITIAL_VALUE, msg[..a]), msg[a..b]) == C.Crc(C.INITIAL_VALUE, msg[..b])
  {
    C.CrcOfConcatenation(C.INITIAL_VALUE, msg[..a], msg[a..b]);
    assert msg[..a] + msg[a..b] == msg[..b];
  }

  lemma EndsInBuffer(buf: seq<byte>, n: nat, msg: seq<byte>)
    ensures 2 <= n <= |buf| && IsChecksum(msg, buf[..n][n - 2..]) ==>
              buf[n - 2] as nat + 0x100 * buf[n - 1] as nat == C.Crc(0, msg) as nat
  {
    hide C.Crc;
    if 2 <= n <= |buf| {
      assert buf[..n][n - 2..][0] == buf[n - 2] && buf[..n][n - 2..][1] == buf[n - 1];
    }
  }

  class Context {
    var totalSize: nat
    var enableMultiCall: bool
    var singleChunkMessageLength: nat
    var readOffset: nat
    var crc16Incremental: bv16

    constructor ()
    {
      totalSize, enableMultiCall := 0, false;
      singleChunkMessageLength, readOffset, crc16Incremental := 0, 0, C.INITIAL_VALUE;
    }

    /** A new message. */
    method Reset(totalSize: nat, enableMultiCall: bool, ghost msg: seq<byte>)
      requires totalSize == |msg| && |msg| + 3 < UINT32_LIMIT
      modifies this
      ensures Sending(msg) && readOffset == 0 && singleChunkMessageLength == 0
      ensures this.totalSize == totalSize && this.enableMultiCall == enableMultiCall
    {
      assert msg[..0] == [];
      this.totalSize, this.enableMultiCall := totalSize, enableMultiCall;
      singleChunkMessageLength, readOffset, crc16Incremental := 0, 0, C.INITIAL_VALUE;
    }

    /** The bytes of `msg` before `readOffset` have been sent. */
    ghost predicate Sending(msg: seq<byte>)
      reads `totalSize, `readOffset, `crc16Incremental
    {
      && totalSize == |msg| && |msg| + 3 < UINT32_LIMIT
      && readOffset <= totalSize
      && crc16Incremental == C.Crc(C.INITIAL_VALUE, msg[..readOffset])
    }

    lemma SendingFacts(msg: seq<byte>)
      requires Sending(msg)
      ensures readOffset <= totalSize == |msg| && |msg| + 3 < UINT32_LIMIT
      ensures crc16Incremental == C.Crc(C.INITIAL_VALUE, msg[..readOffset])
    {
    }

    /** Before the first byte of `msg` is sent, computes how long its single chunk is going to be. */
    method GetChunkInfo(ghost msg: seq<byte>)
      requires Sending(msg)
      modifies `singleChunkMessageLength
      ensures singleChunkMessageLength == if readOffset != 0 then old(singleChunkMessageLength) else |SingleChunk(msg)|
    {
      if readOffset != 0 {
        return;
      }
      singleChunkMessageLength := 1 + 2 + totalSize;
    }

    /** Decides what goes into the next chunk and writes the bytes in front of the message data. */
    method WriteLead(buf: array<byte>, bufLen: nat) returns (start: nat, bytesToRead: nat, moreData: bool)
      requires readOffset <= totalSize && totalSize + 3 < UINT32_LIMIT
      requires MIN_CHUNK_BUF_LEN <= bufLen <= buf.Length
      modifies `singleChunkMessageLength, buf
      ensures var p := PlanChunk(totalSize, readOffset, bufLen, enableMultiCall);
              && start == |p.lead| && bytesToRead == p.taken && moreData == p.more
              && buf[..start] == p.lead
      ensures singleChunkMessageLength == if readOffset == 0 then totalSize + 3 else old(singleChunkMessageLength)
    {
      hide V.Encode;
      PrefixLength(totalSize, readOffset, true);
      PrefixLength(totalSize, readOffset, false);
      if readOffset == 0 {
        var varintLen := V.EncodeU32(totalSize, buf, 1);
        var single := 1 + CRC_LENGTH + totalSize;
        moreData := single > bufLen;
        var md := moreData && !enableMultiCall;
        singleChunkMessageLength := single;
        buf[0] := HeaderByte(false, md);
        start := 1;
        if md {
          bytesToRead := bufLen - 1 - varintLen;
          start := start + varintLen;
        } else if enableMultiCall {
          bytesToRead := Min(bufLen - 1, totalSize);
        } else {
          bytesToRead := totalSize;
        }
      } else if enableMultiCall {
        bytesToRead := Min(bufLen, totalSize - readOffset);
        moreData := bufLen - bytesToRead < CRC_LENGTH;
        start := 0;
      } else {
        ghost var was := buf[..];
        var varintLen := V.EncodeU32(readOffset, buf, 1);
        var room := bufLen - 1 - varintLen;
        bytesToRead := Min(room, totalSize - readOffset);
        room := room - bytesToRead;
        moreData := room < CRC_LENGTH;
        buf[0] := HeaderByte(true, moreData);
        HeaderAndVarint(was, HeaderByte(true, moreData), V.Encode(readOffset));
        start := 1 + varintLen;
      }
    }

    /** Reads the message data of the chunk and extends the checksum over it. */
    method WriteData(reader: Reader, buf: array<byte>, start: nat, n: nat, ghost stored: seq<byte>)
      requires reader.At(stored, readOffset) && Sending(Framed(reader.msgType, reader.useRle, stored))
      requires readOffset + n <= totalSize
      requires start + n <= buf.Length && buf != reader.rle.tempBuf
      modifies `readOffset, `crc16Incremental, reader.rle, reader.rle.rle, reader.rle.tempBuf, buf
      ensures Sending(Framed(reader.msgType, reader.useRle, stored)) && reader.At(stored, readOffset)
      ensures !reader.useRle ==> unchanged(reader.rle) && unchanged(reader.rle.rle)
      ensures readOffset == old(readOffset) + n
      ensures buf[..start + n] ==
              old(buf[..start]) + Framed(reader.msgType, reader.useRle, stored)[old(readOffset)..readOffset]
    {
      hide C.Crc, Framed, Splice, Reader.At;
      ghost var msg := Framed(reader.msgType, reader.useRle, stored);
      ghost var was := buf[..];
      if n != 0 {
        reader.Read(readOffset, buf, start, n, stored);
        ghost var data := msg[readOffset..readOffset + n];
        SpliceParts(was, start, data);
        assert buf[start..start + n] == buf[..][start..start + n];
        CrcExtends(msg, readOffset, readOffset + n);
        crc16Incremental := C.ComputeWithTable(crc16Incremental, buf[start..start + n]);
        readOffset := readOffset + n;
        assert buf[..start + n] == buf[..][..start + n];
        assert was[..start] == old(buf[..start]);
      }
    }

    /** Writes the next chunk to `buf` and scrubs the rest of the first `bufLen` bytes. */
    method WriteChunk(reader: Reader, buf: array<byte>, bufLen: nat, ghost stored: seq<byte>)
      returns (outLen: nat, moreData: bool)
      requires reader.At(stored, readOffset) && Sending(Framed(reader.msgType, reader.useRle, stored))
      requires MIN_CHUNK_BUF_LEN <= bufLen <= buf.Length && buf != reader.rle.tempBuf
      modifies `readOffset, `crc16Incremental, `singleChunkMessageLength
      modifies reader.rle, reader.rle.rle, reader.rle.tempBuf, buf
      ensures Sending(Framed(reader.msgType, reader.useRle, stored)) && reader.At(stored, readOffset)
      ensures !reader.useRle ==> unchanged(reader.rle) && unchanged(reader.rle.rle)
      ensures var c := NextChunk(Framed(reader.msgType, reader.useRle, stored), old(readOffset), bufLen, enableMultiCall);
              && outLen == |c.bytes| <= bufLen && moreData == c.more
              && buf[..outLen] == c.bytes
              && (forall i :: outLen <= i < bufLen ==> buf[i] == SCRUB_PATTERN)
              && readOffset == old(readOffset) + c.taken
              && singleChunkMessageLength ==
                 if old(readOffset) == 0 then totalSize + 3 else old(singleChunkMessageLength)
    {
      hide C.Crc, Framed, PlanChunk, CrcBytes, NextChunk, Body, Reader.At, Sending;
      ghost var msg := Framed(reader.msgType, reader.useRle, stored);
      SendingFacts(msg);
      ghost var from := readOffset;
      var start, bytesToRead;
      start, bytesToRead, moreData := WriteLead(buf, bufLen);
      WriteData(reader, buf, start, bytesToRead, stored);
      SendingFacts(msg);
      outLen := start + bytesToRead;
      if !moreData {
        WriteChecksum(buf, outLen);
        outLen := outLen + CRC_LENGTH;
      }
      ChunkIsComplete(msg, from, bufLen, enableMultiCall);
      Scrub(buf, outLen, bufLen);
    }

    /** Fills the first `bufLen` bytes of `buf` with the next chunk and returns how many are used and
      * whether there is more to send. The rest of them is scrubbed. The first byte says what kind of chunk it
      * is, and the last two of the last chunk are the checksum of the message, the low byte first. */
    method GetNextChunk(reader: Reader, buf: array<byte>, bufLen: nat, ghost stored: seq<byte>)
      returns (outLen: nat, moreData: bool)
      requires reader.At(stored, readOffset) && Sending(Framed(reader.msgType, reader.useRle, stored))
      requires bufLen <= buf.Length && buf != reader.rle.tempBuf
      modifies `readOffset, `crc16Incremental, `singleChunkMessageLength
      modifies reader.rle, reader.rle.rle, reader.rle.tempBuf, buf
      ensures Sending(Framed(reader.msgType, reader.useRle, stored)) && reader.At(stored, readOffset)
      ensures !reader.useRle ==> unchanged(reader.rle) && unchanged(reader.rle.rle)
      ensures bufLen < 9 ==>
                outLen == 0 && moreData && unchanged(this) && buf[..] == old(buf[..])
      ensures bufLen >= 9 ==>
                && 1 <= outLen <= bufLen
                && (old(readOffset) == 0 ==> buf[0] == if moreData && !enableMultiCall then 0x48 else 0x08)
                && (old(readOffset) > 0 && !enableMultiCall ==> buf[0] == if moreData then 0xC0 else 0x80)
                && (!moreData ==>
                      outLen >= 2 &&
                      buf[outLen - 2] as nat + 0x100 * buf[outLen - 1] as nat ==
                      C.Crc(0, Framed(reader.msgType, reader.useRle, stored)) as nat)
                && (forall i :: outLen <= i < bufLen ==> buf[i] == 0xBA)
      ensures bufLen >= 9 ==>
                var c := NextChunk(Framed(reader.msgType, reader.useRle, stored), old(readOffset), bufLen, enableMultiCall);
                && outLen == |c.bytes| && moreData == c.more && buf[..outLen] == c.bytes
                && readOffset == old(readOffset) + c.taken
                && singleChunkMessageLength ==
                   if old(readOffset) == 0 then totalSize + 3 else old(singleChunkMessageLength)
    {
      hide C.Crc, Framed, NextChunk, Reader.At, Sending, IsChecksum;
      SendingFacts(Framed(reader.msgType, reader.useRle, stored));
      if bufLen < MIN_CHUNK_BUF_LEN {
        return 0, true;
      }
      ghost var msg := Framed(reader.msgType, reader.useRle, stored);
      ChunkEnds(msg, readOffset, bufLen, enableMultiCall);
      outLen, moreData := WriteChunk(reader, buf, bufLen, stored);
      assert buf[0] == buf[..outLen][0];
      EndsInBuffer(buf[..], outLen, msg);
    }

    method WriteChecksum(buf: array<byte>, at: nat)
      requires at + CRC_LENGTH <= buf.Length
      modifies buf
      ensures buf[..at + CRC_LENGTH] == old(buf[..at]) + CrcBytes(crc16Incremental)
    {
      hide CrcBytes;
      ghost var was := buf[..];
      CopyInto(buf, at, CrcBytes(crc16Incremental));
      SpliceExtends(was, at, CrcBytes(crc16Incremental));
      assert buf[..at + CRC_LENGTH] == buf[..][..at + CRC_LENGTH];
      assert was[..at] == old(buf[..at]);
    }

    method Scrub(buf: array<byte>, from: nat, to: nat)
      requires from <= to <= buf.Length
      modifies buf
      ensures buf[..from] == old(buf[..from])
      ensures forall i :: from <= i < to ==> buf[i] == SCRUB_PATTERN
    {
      for i := from to to
        invariant buf[..from] == old(buf[..from])
        invariant forall j :: from <= j < i ==> buf[j] == SCRUB_PATTERN
      {
        buf[i] := SCRUB_PATTERN;
      }
    }
  }
}
