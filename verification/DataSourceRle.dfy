/** A data source that run-length encodes the message of another source while it is read
  * (components/core/src/memfault_data_source_rle.c).
  *
  * A first pass over the backing message computes the size to announce. Reads then run the encoder
  * a second time, through a window of 128 bytes, and hand out record after record; a read may stop
  * anywhere inside a record and the next one carries on there. */
module DataSourceRle {
  import opened Bytes
  import opened RleSpec
  import R = Rle
  import DataSource

  const WINDOW := 128

  datatype EncodeState = Inactive | FindingSeqLength | WritingSequence

  /** After `done` encoded bytes, what is left to encode is msg[p..], and a segment starts there. */
  ghost predicate AtSegment(msg: seq<byte>, done: nat, p: nat) {
    && p <= |msg| && done <= |Encode(msg)|
    && Encode(msg)[done..] == EncodeFrom(msg, p)
  }

  lemma AtFirstSegment(msg: seq<byte>)
    ensures AtSegment(msg, 0, 0)
  {
  }

  lemma PrefixOfTail(all: seq<byte>, done: nat, rec: seq<byte>, rest: seq<byte>)
    requires done <= |all| && all[done..] == rec + rest
    ensures done + |rec| <= |all|
    ensures all[done..done + |rec|] == rec && all[done + |rec|..] == rest
  {
    assert all[done..done + |rec|] == all[done..][..|rec|];
    assert all[done + |rec|..] == all[done..][|rec|..];
  }

  lemma AtNextSegment(msg: seq<byte>, done: nat, p: nat, e: nat)
    requires AtSegment(msg, done, p) && p < |msg| && e == SegmentEnd(msg, p)
    ensures done + |RecordBytes(msg, p, e)| <= |Encode(msg)|
    ensures Encode(msg)[done..done + |RecordBytes(msg, p, e)|] == RecordBytes(msg, p, e)
    ensures AtSegment(msg, done + |RecordBytes(msg, p, e)|, e)
  {
    hide RecordBytes, EncodeFrom, SegmentEnd;
    EncodeFromStep(msg, p);
    PrefixOfTail(Encode(msg), done, RecordBytes(msg, p, e), EncodeFrom(msg, e));
  }

  /** `written` bytes of the record that `w` asks for are among the first `done` encoded bytes. */
  ghost predicate PartlyWritten(w: R.WriteInfo, msg: seq<byte>, done: nat, written: nat) {
    && R.Describes(w, msg, w.start) && w.length > 0
    && written < |w.header| + w.length
    && written <= done && AtSegment(msg, done - written, w.start)
  }

  /** Where the second pass stands after handing out `done` bytes: inside the record that `w` asks
    * for, or between two records; the segment after that record starts at `next`. */
  ghost predicate Positioned(w: R.WriteInfo, state: EncodeState, msg: seq<byte>, done: nat, written: nat, next: nat) {
    if w.available then
      && state == WritingSequence
      && PartlyWritten(w, msg, done, written)
      && SegmentEnd(msg, w.start) == next
    else
      state == FindingSeqLength && written == 0 && AtSegment(msg, done, next)
  }

  /** Encoded bytes `from` up to `to` have been written to a buffer from index `at` on. */
  ghost predicate HandedOut(before: seq<byte>, after: seq<byte>, at: nat, msg: seq<byte>, from: nat, to: nat) {
    && from <= to <= |Encode(msg)| && at + (to - from) <= |before|
    && after == Splice(before, at, Encode(msg)[from..to])
  }

  lemma NothingHandedOut(buf: seq<byte>, at: nat, msg: seq<byte>, from: nat)
    requires at <= |buf| && from <= |Encode(msg)|
    ensures HandedOut(buf, buf, at, msg, from, from)
  {
    hide Encode, Splice;
    assert Encode(msg)[from..from] == [];
    SpliceNothing(buf, at);
  }

  lemma HandedOutIsSlice(before: seq<byte>, after: seq<byte>, at: nat, msg: seq<byte>, from: nat, to: nat)
    requires HandedOut(before, after, at, msg, from, to)
    ensures from <= to <= |Encode(msg)| && at + (to - from) <= |before|
    ensures after == Splice(before, at, Encode(msg)[from..to])
  {
  }

  lemma MoreHandedOut(s0: seq<byte>, s1: seq<byte>, s2: seq<byte>, at: nat, msg: seq<byte>, a: nat, b: nat, c: nat)
    requires HandedOut(s0, s1, at, msg, a, b) && at + (c - a) <= |s0|
    requires HandedOut(s1, s2, at + (b - a), msg, b, c)
    ensures HandedOut(s0, s2, at, msg, a, c)
  {
    hide Encode, Splice;
    SpliceTwice(s0, at, Encode(msg)[a..b], Encode(msg)[b..c]);
    SplitRange(Encode(msg), a, b, c);
  }

  /** The record that is being written, as a slice of the encoding. */
  lemma RecordInEncoding(w: R.WriteInfo, msg: seq<byte>, done: nat, written: nat)
    requires PartlyWritten(w, msg, done, written)
    ensures w.start + w.length <= |msg|
    ensures var rec := w.header + msg[w.start..w.start + w.length];
            done - written + |rec| <= |Encode(msg)| &&
            Encode(msg)[done - written..done - written + |rec|] == rec
    ensures AtSegment(msg, done - written + |w.header| + w.length, SegmentEnd(msg, w.start))
  {
    hide Encode, Header, AtSegment, SegmentEnd;
    AtNextSegment(msg, done - written, w.start, SegmentEnd(msg, w.start));
  }

  /** The rest of the payload comes in the encoding behind the rest of the header. */
  lemma PayloadInEncoding(w: R.WriteInfo, msg: seq<byte>, done: nat, written: nat)
    requires PartlyWritten(w, msg, done, written)
    ensures var skip := Max(|w.header| - written, 0);
            var left := |w.header| + w.length - written - skip;
            var from := w.start + w.length - left;
            && from + left <= |msg| && done + skip + left <= |Encode(msg)|
            && Encode(msg)[done + skip..done + skip + left] == msg[from..from + left]
  {
    hide Encode, Header, AtSegment, SegmentEnd, R.Describes;
    RecordInEncoding(w, msg, done, written);
    var payload := msg[w.start..w.start + w.length];
    var rec := w.header + payload;
    var skip := Max(|w.header| - written, 0);
    var left := |w.header| + w.length - written - skip;
    SliceOfSlice(Encode(msg), done - written, rec, written + skip, left);
    SliceOfSlice(rec, |w.header|, payload, w.length - left, left);
    SliceOfSlice(msg, w.start, payload, w.length - left, left);
  }

  /** While the header is being handed out, the next bytes of the encoding are the header's. */
  lemma NextHeaderBytes(w: R.WriteInfo, msg: seq<byte>, next: nat, done: nat, written: nat, n: nat,
                        buf: seq<byte>, at: nat)
    requires w.available && Positioned(w, WritingSequence, msg, done, written, next)
    requires written + n <= |w.header| && at + n <= |buf|
    ensures HandedOut(buf, Splice(buf, at, w.header[written..written + n]), at, msg, done, done + n)
    ensures Positioned(w, WritingSequence, msg, done + n, written + n, next)
  {
    hide Encode, Header, AtSegment, SegmentEnd, Splice, R.Describes;
    RecordInEncoding(w, msg, done, written);
    var rec := w.header + msg[w.start..w.start + w.length];
    SliceOfSlice(Encode(msg), done - written, rec, written, n);
    SliceOfSlice(rec, 0, w.header, written, n);
  }

  /** After that they are bytes of the message itself, and after those the next segment is due. */
  lemma NextPayloadBytes(w: R.WriteInfo, msg: seq<byte>, next: nat, done: nat, written: nat, n: nat)
    requires w.available && Positioned(w, WritingSequence, msg, done, written, next)
    requires |w.header| <= written && written + n <= |w.header| + w.length
    ensures done + n <= |Encode(msg)|
    ensures if written + n == |w.header| + w.length then
              Positioned(R.NO_WRITE, FindingSeqLength, msg, done + n, 0, next)
            else
              Positioned(w, WritingSequence, msg, done + n, written + n, next)
  {
    hide Encode, Header, AtSegment, SegmentEnd, R.Describes;
    RecordInEncoding(w, msg, done, written);
  }

  lemma SpliceHandsOut(buf: seq<byte>, at: nat, data: seq<byte>, msg: seq<byte>, from: nat)
    requires from + |data| <= |Encode(msg)| && data == Encode(msg)[from..from + |data|] && at + |data| <= |buf|
    ensures HandedOut(buf, Splice(buf, at, data), at, msg, from, from + |data|)
  {
  }

  /** The encoder has found the record of the segment that was due. */
  lemma RecordIsFound(w: R.WriteInfo, msg: seq<byte>, done: nat, p: nat)
    requires Positioned(R.NO_WRITE, FindingSeqLength, msg, done, 0, p)
    requires R.Describes(w, msg, p)
    ensures Positioned(w, WritingSequence, msg, done, 0, SegmentEnd(msg, p))
  {
    hide Encode, AtSegment, Header;
  }

  lemma NothingIsLeft(msg: seq<byte>, done: nat)
    requires AtSegment(msg, done, |msg|)
    ensures done == |Encode(msg)|
  {
    assert |Encode(msg)[done..]| == 0;
  }

  lemma SegmentIsSized(msg: seq<byte>, p: nat, w: R.WriteInfo)
    requires R.Describes(w, msg, p)
    ensures |EncodeFrom(msg, p)| == |w.header| + w.length + |EncodeFrom(msg, SegmentEnd(msg, p))|
  {
    hide EncodeFrom, Header, SegmentEnd;
    LengthStep(msg, p, SegmentEnd(msg, p));
  }

  lemma EncodingIsNonEmpty(msg: seq<byte>)
    requires msg != []
    ensures |Encode(msg)| > 0
  {
  }

  lemma NothingFromEnd(msg: seq<byte>)
    ensures |EncodeFrom(msg, |msg|)| == 0
  {
  }

  class RleSource {
    var active: DataSource.Source?
    var originalSize: nat
    var totalRleSize: nat
    const rle: R.Encoder
    var encState: EncodeState
    const tempBuf: array<byte>
    /** How much of the record being written has been handed out. */
    var writeOffset: nat
    /** How many bytes of the backing message the second pass has fed to the encoder. */
    var bytesProcessed: nat
    /** How much of the encoding has been handed out. */
    var currEncodedLen: nat
    /** Whether the second pass has flushed the encoder. */
    ghost var finalized: bool

    constructor ()
      ensures active == null && Valid() && currEncodedLen == 0
      ensures fresh(rle) && fresh(tempBuf)
    {
      active, originalSize, totalRleSize, encState := null, 0, 0, Inactive;
      rle := new R.Encoder();
      tempBuf := new byte[WINDOW];
      writeOffset, bytesProcessed, currEncodedLen, finalized := 0, 0, 0, false;
    }

    ghost predicate IsClear()
      reads this, rle
    {
      IsClearBut(0)
    }

    /** Clear but for the size of the message, which was just looked up. */
    ghost predicate IsClearBut(size: nat)
      reads this, rle
    {
      && originalSize == size && totalRleSize == 0 && rle.IsClear() && encState == Inactive
      && writeOffset == 0 && bytesProcessed == 0 && currEncodedLen == 0 && !finalized
    }

    method Clear()
      modifies this, rle
      ensures IsClear() && active == old(active)
    {
      originalSize, totalRleSize, encState := 0, 0, Inactive;
      rle.Clear();
      writeOffset, bytesProcessed, currEncodedLen, finalized := 0, 0, 0, false;
    }

    /** The first pass over `msg` is done, and the second one has handed out the first
      * `currEncodedLen` bytes of its encoding. */
    ghost predicate Reading(msg: seq<byte>)
      reads this, rle
    {
      && 0 < |msg| < INT32_LIMIT && originalSize == |msg| && totalRleSize == |Encode(msg)|
      && tempBuf.Length == WINDOW
      && bytesProcessed <= |msg|
      && (finalized ==> bytesProcessed == |msg|)
      && (!finalized ==> rle.Tracks(msg) && rle.currOffset == bytesProcessed)
      && Positioned(rle.writeInfo, encState, msg, currEncodedLen, writeOffset,
                    if finalized then |msg| else rle.seqStart)
    }

    lemma ReadingPosition(msg: seq<byte>)
      requires Reading(msg)
      ensures originalSize == |msg| >= bytesProcessed && tempBuf.Length == WINDOW
      ensures currEncodedLen <= |Encode(msg)|
      ensures encState == if rle.writeInfo.available then WritingSequence else FindingSeqLength
      ensures if rle.writeInfo.available then writeOffset < |rle.writeInfo.header| + rle.writeInfo.length
              else writeOffset == 0
    {
      hide Encode, EncodeFrom, SegmentEnd, R.Pending, R.Describes, Header;
      if rle.writeInfo.available {
        RecordInEncoding(rle.writeInfo, msg, currEncodedLen, writeOffset);
      }
    }

    /** As long as bytes are missing and none are pending, the encoder has not been flushed. */
    lemma Unfinished(msg: seq<byte>)
      requires Reading(msg) && !rle.writeInfo.available
      ensures finalized ==> currEncodedLen == |Encode(msg)|
    {
      if finalized {
        NothingIsLeft(msg, currEncodedLen);
      }
    }

    /** Where the message is read next. While a record is written, the bytes of the message from there on
      * are those that the encoding has behind what is left of the record's header. Between records it is
      * the first byte that the encoder has not seen: what was handed out is the encoding up to the segment
      * that the encoder is collecting, and that reaches up to there. */
    method GetBackingReadOffset(ghost msg: seq<byte>) returns (offset: nat)
      requires Reading(msg)
      ensures offset <= |msg|
      ensures rle.writeInfo.available ==>
                var skip := Max(|rle.writeInfo.header| - writeOffset, 0);
                var left := |rle.writeInfo.header| + rle.writeInfo.length - writeOffset - skip;
                && offset + left <= |msg| && currEncodedLen + skip + left <= |Encode(msg)|
                && Encode(msg)[currEncodedLen + skip..currEncodedLen + skip + left] == msg[offset..offset + left]
      ensures !rle.writeInfo.available && !finalized ==>
                && AtSegment(msg, currEncodedLen, rle.seqStart)
                && R.Pending(msg, rle.seqStart, rle.seqCount, rle.numRepeats, rle.state)
                && rle.seqStart + rle.seqCount == offset
      ensures !rle.writeInfo.available && finalized ==> currEncodedLen == |Encode(msg)| && offset == |msg|
      ensures !rle.writeInfo.available ==> offset == bytesProcessed
    {
      hide Encode, EncodeFrom, SegmentEnd, R.Pending, Header;
      if rle.writeInfo.available {
        PayloadInEncoding(rle.writeInfo, msg, currEncodedLen, writeOffset);
      } else if finalized {
        NothingIsLeft(msg, currEncodedLen);
      }
      if encState == FindingSeqLength {
        return bytesProcessed;
      }
      if writeOffset < |rle.writeInfo.header| {
        return rle.writeInfo.start;
      }
      return rle.writeInfo.start + (writeOffset - |rle.writeInfo.header|);
    }

    /** Copies what fits of the header of the record being written. */
    method WriteHeader(buf: array<byte>, at: nat, len: nat, ghost msg: seq<byte>) returns (n: nat)
      requires Reading(msg) && rle.writeInfo.available
      requires at + len <= buf.Length && buf != tempBuf
      modifies `writeOffset, `currEncodedLen, buf
      ensures Reading(msg)
      ensures n <= len && (n < len ==> writeOffset >= |rle.writeInfo.header|)
      ensures currEncodedLen == old(currEncodedLen) + n
      ensures HandedOut(old(buf[..]), buf[..], at, msg, old(currEncodedLen), currEncodedLen)
    {
      hide Positioned, PartlyWritten, R.Pending, Encode, HandedOut, Splice;
      ReadingPosition(msg);
      var w := rle.writeInfo;
      ghost var was := buf[..];
      if writeOffset >= |w.header| {
        NothingHandedOut(was, at, msg, currEncodedLen);
        return 0;
      }
      n := Min(len, |w.header| - writeOffset);
      ghost var next := if finalized then |msg| else rle.seqStart;
      NextHeaderBytes(w, msg, next, currEncodedLen, writeOffset, n, was, at);
      CopyInto(buf, at, w.header[writeOffset..writeOffset + n]);
      writeOffset := writeOffset + n;
      currEncodedLen := currEncodedLen + n;
    }

    /** Copies what fits of the payload of the record being written, straight from the backing
      * message, and turns to the next record once this one is complete. */
    method WritePayload(buf: array<byte>, at: nat, len: nat, ghost msg: seq<byte>) returns (n: nat)
      requires Reading(msg) && rle.writeInfo.available && writeOffset >= |rle.writeInfo.header|
      requires active != null && active.queue != [] && active.queue[0] == msg
      requires at + len <= buf.Length && buf != tempBuf
      modifies `writeOffset, `currEncodedLen, `encState, rle`writeInfo, buf
      ensures Reading(msg)
      ensures n <= len && (n < len ==> !rle.writeInfo.available)
      ensures currEncodedLen == old(currEncodedLen) + n
      ensures HandedOut(old(buf[..]), buf[..], at, msg, old(currEncodedLen), currEncodedLen)
    {
      hide Positioned, PartlyWritten, R.Pending, Encode, HandedOut, Splice;
      ReadingPosition(msg);
      var w := rle.writeInfo;
      ghost var next := if finalized then |msg| else rle.seqStart;
      var total := |w.header| + w.length;
      n := Min(len, total - writeOffset);
      NextPayloadBytes(w, msg, next, currEncodedLen, writeOffset, n);
      var start := GetBackingReadOffset(msg);
      SamePart(Encode(msg), currEncodedLen, msg, start, total - writeOffset, n);
      SpliceHandsOut(buf[..], at, msg[start..start + n], msg, currEncodedLen);
      var _ := active.ReadMsg(start, buf, at, n);
      writeOffset := writeOffset + n;
      currEncodedLen := currEncodedLen + n;
      if writeOffset == total {
        writeOffset := 0;
        encState := FindingSeqLength;
        rle.writeInfo := R.NO_WRITE;
      }
    }

    /** Hands out what fits of the record that is being written. */
    method BuildMsgIncremental(buf: array<byte>, at: nat, len: nat, ghost msg: seq<byte>) returns (n: nat)
      requires Reading(msg) && active != null && active.queue != [] && active.queue[0] == msg
      requires at + len <= buf.Length && buf != tempBuf
      modifies `writeOffset, `currEncodedLen, `encState, rle`writeInfo, buf
      ensures Reading(msg)
      ensures n <= len && (n < len ==> !rle.writeInfo.available)
      ensures currEncodedLen == old(currEncodedLen) + n
      ensures HandedOut(old(buf[..]), buf[..], at, msg, old(currEncodedLen), currEncodedLen)
    {
      hide Positioned, R.Pending, Encode, HandedOut, Splice;
      ReadingPosition(msg);
      ghost var was, done := buf[..], currEncodedLen;
      if !rle.writeInfo.available {
        NothingHandedOut(was, at, msg, done);
        return 0;
      }
      n := WriteHeader(buf, at, len, msg);
      if n == len {
        return;
      }
      ghost var mid := buf[..];
      var inPayload := WritePayload(buf, at + n, len - n, msg);
      MoreHandedOut(was, mid, buf[..], at, msg, done, done + n, currEncodedLen);
      n := n + inPayload;
    }

    method FillMsg(buf: array<byte>, bufp: nat, bufLen: nat, ghost msg: seq<byte>)
      returns (bufp': nat, bufLen': nat, full: bool)
      requires Reading(msg) && active != null && active.queue != [] && active.queue[0] == msg
      requires bufp + bufLen <= buf.Length && buf != tempBuf
      modifies `writeOffset, `currEncodedLen, `encState, rle`writeInfo, buf
      ensures Reading(msg)
      ensures bufp <= bufp' && bufp' + bufLen' == bufp + bufLen && full == (bufLen' == 0)
      ensures !full ==> !rle.writeInfo.available
      ensures currEncodedLen == old(currEncodedLen) + (bufp' - bufp)
      ensures HandedOut(old(buf[..]), buf[..], bufp, msg, old(currEncodedLen), currEncodedLen)
    {
      hide *;
      var bytesWritten := BuildMsgIncremental(buf, bufp, bufLen, msg);
      bufLen' := bufLen - bytesWritten;
      bufp' := bufp + bytesWritten;
      full := bufLen' == 0;
    }

    /** Feeds more of the backing message to the encoder; no data means that there is no more. */
    method ReadMsgPrepare(data: seq<byte>, ghost msg: seq<byte>) returns (available: bool)
      requires Reading(msg) && !finalized && !rle.writeInfo.available
      requires bytesProcessed + |data| <= |msg| && data == msg[bytesProcessed..bytesProcessed + |data|]
      requires data == [] ==> bytesProcessed == |msg|
      modifies `bytesProcessed, `encState, `finalized, rle
      ensures Reading(msg)
      ensures available == rle.writeInfo.available
      ensures finalized == (data == [])
      ensures bytesProcessed >= old(bytesProcessed) && (data != [] ==> bytesProcessed > old(bytesProcessed))
    {
      hide Encode, EncodeFrom, SegmentEnd, R.Pending, R.Describes, PartlyWritten, AtSegment;
      ghost var p := rle.seqStart;
      ReadingPosition(msg);
      assert Positioned(R.NO_WRITE, FindingSeqLength, msg, currEncodedLen, 0, p);
      hide Positioned;
      var bytesEncoded := rle.Encode(data, msg);
      if |data| == 0 {
        rle.Finalize(msg);
        finalized := true;
      }
      bytesProcessed := bytesProcessed + bytesEncoded;
      available := rle.writeInfo.available;
      if available {
        RecordIsFound(rle.writeInfo, msg, currEncodedLen, p);
        encState := WritingSequence;
      }
    }

    /** Reads the next bytes of the backing message and feeds them to the encoder. */
    method PrepareWindow(ghost msg: seq<byte>)
      requires Reading(msg) && !finalized && !rle.writeInfo.available && bytesProcessed != originalSize
      requires active != null && active.queue != [] && active.queue[0] == msg
      modifies `bytesProcessed, `encState, `finalized, rle, tempBuf
      ensures Reading(msg) && !finalized && bytesProcessed > old(bytesProcessed)
    {
      hide Reading, Encode;
      ReadingPosition(msg);
      var bytesRead := Min(originalSize - bytesProcessed, WINDOW);
      var readOffset := GetBackingReadOffset(msg);
      ghost var window := tempBuf[..];
      var _ := active.ReadMsg(readOffset, tempBuf, 0, bytesRead);
      SpliceAtStart(window, msg[readOffset..readOffset + bytesRead]);
      assert tempBuf[..bytesRead] == tempBuf[..][..bytesRead];
      var _ := ReadMsgPrepare(tempBuf[..bytesRead], msg);
    }

    /** Copies `len` bytes of the encoding, from `offset` on, to `buf` at index `at`. Reads have to
      * be sequential: one that does not start where the last one stopped is refused. */
    method ReadMsg(offset: nat, buf: array<byte>, at: nat, len: nat, ghost msg: seq<byte>) returns (ok: bool)
      requires Reading(msg) && active != null && active.queue != [] && active.queue[0] == msg
      requires at + len <= buf.Length && buf != tempBuf
      requires offset + len <= |Encode(msg)|
      modifies `writeOffset, `currEncodedLen, `encState, `bytesProcessed, `finalized, rle, buf, tempBuf
      ensures Reading(msg)
      ensures ok == (offset == old(currEncodedLen))
      ensures ok ==> currEncodedLen == offset + len &&
                     buf[..] == Splice(old(buf[..]), at, Encode(msg)[offset..offset + len])
      ensures !ok ==> unchanged(this) && buf[..] == old(buf[..])
    {
      hide Reading, Encode, HandedOut, Splice;
      ReadingPosition(msg);
      if offset != currEncodedLen {
        return false;
      }
      ok := true;
      ghost var was := buf[..];
      var bufp, bufLen, full := FillMsg(buf, at, len, msg);
      HandedOutIsSlice(was, buf[..], at, msg, offset, currEncodedLen);
      if full {
        return;
      }
      Unfinished(msg);

      while bytesProcessed != originalSize
        invariant Reading(msg) && !finalized && !rle.writeInfo.available
        invariant active == old(active) && active != null && active.queue != [] && active.queue[0] == msg
        invariant bufLen > 0 && at <= bufp && bufp + bufLen == at + len && bufp - at == currEncodedLen - offset
        invariant HandedOut(was, buf[..], at, msg, offset, currEncodedLen)
        decreases originalSize - bytesProcessed
      {
        PrepareWindow(msg);
        ReadingPosition(msg);
        ghost var mid, done := buf[..], currEncodedLen;
        bufp, bufLen, full := FillMsg(buf, bufp, bufLen, msg);
        MoreHandedOut(was, mid, buf[..], at, msg, offset, done, currEncodedLen);
        if full {
          HandedOutIsSlice(was, buf[..], at, msg, offset, currEncodedLen);
          return;
        }
      }

      ReadingPosition(msg);
      var _ := ReadMsgPrepare([], msg);
      ghost var mid, done := buf[..], currEncodedLen;
      bufp, bufLen, full := FillMsg(buf, bufp, bufLen, msg);
      MoreHandedOut(was, mid, buf[..], at, msg, offset, done, currEncodedLen);
      if !full {
        Unfinished(msg);
      }
      HandedOutIsSlice(was, buf[..], at, msg, offset, currEncodedLen);
    }

    // ---- The first pass ----

    /** The encoder has been fed a prefix of `msg` and has sized all segments it has found. */
    ghost predicate Sizing(msg: seq<byte>)
      reads rle
    {
      && rle.Tracks(msg)
      && rle.totalSize + |EncodeFrom(msg, rle.seqStart)| == |Encode(msg)|
    }

    /** Feeds a piece of the message to the sizing pass; the last piece completes it. */
    method HasMoreMsgsPrepare(data: seq<byte>, ghost msg: seq<byte>) returns (complete: bool)
      requires Sizing(msg) && msg != [] && originalSize == |msg|
      requires rle.currOffset + |data| <= |msg| && data == msg[rle.currOffset..rle.currOffset + |data|]
      modifies rle, `encState
      ensures rle.currOffset == old(rle.currOffset) + |data|
      ensures complete == (rle.currOffset == |msg|)
      ensures if complete then
                encState == FindingSeqLength && rle.totalSize == |Encode(msg)|
              else
                encState == old(encState) && Sizing(msg)
    {
      hide Encode, EncodeFrom, SegmentEnd, R.Pending, R.Describes;
      var bytesEncoded := 0;
      ghost var start := rle.currOffset;
      while bytesEncoded != |data|
        invariant 0 <= bytesEncoded <= |data| && rle.currOffset == start + bytesEncoded
        invariant Sizing(msg) && encState == old(encState)
        decreases |data| - bytesEncoded
      {
        ghost var p := rle.seqStart;
        SliceOfSlice(msg, start, data, bytesEncoded, |data| - bytesEncoded);
        var n := rle.Encode(data[bytesEncoded..], msg);
        if rle.writeInfo.available {
          SegmentIsSized(msg, p, rle.writeInfo);
        }
        bytesEncoded := bytesEncoded + n;
      }

      complete := rle.currOffset == originalSize;
      if !complete {
        return;
      }
      ghost var p := rle.seqStart;
      rle.Finalize(msg);
      SegmentIsSized(msg, p, rle.writeInfo);
      NothingFromEnd(msg);
      encState := FindingSeqLength;
    }

    /** Reads the whole backing message once to find out how long its encoding is. */
    method ComputeRleSize(ghost msg: seq<byte>) returns (size: nat)
      requires IsClearBut(|msg|) && 0 < |msg| < INT32_LIMIT && tempBuf.Length == WINDOW
      requires active != null && active.queue != [] && active.queue[0] == msg
      modifies rle, tempBuf, `encState, `totalRleSize
      ensures size == |Encode(msg)| == totalRleSize
      ensures Reading(msg) && currEncodedLen == 0
    {
      hide EncodeFrom, SegmentEnd, R.Pending, Splice;
      rle.TracksFromStart(msg);
      AtFirstSegment(msg);
      var processed := 0;
      while processed != originalSize
        invariant 0 <= processed <= originalSize == |msg|
        invariant rle.currOffset == processed
        invariant processed < originalSize ==> Sizing(msg) && encState == Inactive
        invariant processed == originalSize ==> rle.totalSize == |Encode(msg)| && encState == FindingSeqLength
        decreases originalSize - processed
      {
        var toRead := Min(originalSize - processed, WINDOW);
        ghost var window := tempBuf[..];
        var _ := active.ReadMsg(processed, tempBuf, 0, toRead);
        SpliceAtStart(window, msg[processed..processed + toRead]);
        assert tempBuf[..toRead] == tempBuf[..][..toRead];
        var _ := HasMoreMsgsPrepare(tempBuf[..toRead], msg);
        processed := processed + toRead;
      }
      totalRleSize := rle.totalSize;
      rle.Clear();
      rle.TracksFromStart(msg);
      size := totalRleSize;
    }

    // ---- The data source interface ----

    /** No message is being encoded, or the one that is next in the active source. */
    ghost predicate Valid()
      reads this, rle, if active == null then {} else {active}
    {
      && tempBuf.Length == WINDOW
      && (IsClear() || (active != null && active.queue != [] && Reading(active.queue[0])))
    }

    method SetActive(source: DataSource.Source?)
      requires Valid()
      modifies this, rle
      ensures Valid() && active == source
      ensures source == old(active) ==> unchanged(this) && unchanged(rle)
      ensures source != old(active) ==> IsClear() && currEncodedLen == 0
    {
      if source == active {
        return;
      }
      Clear();
      active := source;
    }

    /** Whether there is a message; its size is the size of its encoding, found by a first pass when
      * no earlier call has found it already. */
    method HasMoreMsgs() returns (has: bool, size: nat)
      requires Valid() && active != null
      requires active.queue != [] ==> 0 < |active.queue[0]| < INT32_LIMIT
      modifies this, rle, tempBuf
      ensures Valid() && active == old(active) && currEncodedLen == old(currEncodedLen)
      ensures has == (active.queue != [])
      ensures has ==> Reading(active.queue[0]) && size == |Encode(active.queue[0])| > 0
    {
      hide Positioned, EncodeFrom, Encode, R.Pending;
      var backingSize;
      has, backingSize := active.HasMoreMsgs();
      size := 0;
      if !has {
        return;
      }
      EncodingIsNonEmpty(active.queue[0]);
      originalSize := backingSize;
      if totalRleSize != 0 {
        size := totalRleSize;
        return;
      }
      size := ComputeRleSize(active.queue[0]);
    }

    method MarkMsgRead()
      requires Valid() && active != null
      modifies this, rle, active
      ensures Valid() && active == old(active) && IsClear() && currEncodedLen == 0
      ensures active.queue == if old(active.queue) == [] then [] else old(active.queue)[1..]
    {
      Clear();
      active.MarkMsgRead();
    }
  }
}
