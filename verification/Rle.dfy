/** The byte-at-a-time run-length encoder (components/util/src/memfault_rle.c). */
module Rle {
  import opened Bytes
  import opened RleSpec
  import V = Varint

  datatype State = Init | RepeatSeq | NonRepeatSeq

  /** The write that the encoder asks its caller to make: `header`, then `length` bytes of the
    * message from `start` on. */
  datatype WriteInfo = WriteInfo(available: bool, header: seq<byte>, start: nat, length: nat)

  const NO_WRITE := WriteInfo(false, [], 0, 0)

  // ---- What the encoder knows about the sequence it is collecting ----

  /** The pending sequence msg[start..start + count] has the shape that `state` stands for. */
  ghost predicate Pending(msg: seq<byte>, start: nat, count: nat, repeats: nat, state: State) {
    var curr := start + count;
    && curr <= |msg|
    && match state
       case Init => start == count == repeats == 0
       case RepeatSeq =>
         count >= 2 && repeats == count - 1 && forall i :: start <= i < curr ==> msg[i] == msg[start]
       case NonRepeatSeq =>
         && count >= 1
         && (count >= 2 ==> msg[start] != msg[start + 1])
         && (forall i :: start <= i < curr - 2 ==> !TripleAt(msg, i))
         && repeats == (if count >= 2 && msg[curr - 2] == msg[curr - 1] then 1 else 0)
  }

  /** A run that the next byte breaks is a whole segment. */
  lemma RunIsBroken(msg: seq<byte>, start: nat, count: nat, repeats: nat)
    requires Pending(msg, start, count, repeats, RepeatSeq)
    requires start + count < |msg| ==> msg[start + count] != msg[start]
    ensures IsRun(msg, start) && SegmentEnd(msg, start) == start + count
  {
    var e := RunEnd(msg, start);
    assert !(e < start + count);
    assert !(start + count < e);
  }

  /** A literal in which three equal bytes appear ends where they start. */
  lemma LiteralIsBroken(msg: seq<byte>, start: nat, count: nat)
    requires Pending(msg, start, count, 1, NonRepeatSeq)
    requires start + count < |msg| && msg[start + count] == msg[start + count - 1]
    ensures count >= 3 && !IsRun(msg, start) && SegmentEnd(msg, start) == start + count - 2
  {
    var t := start + count - 2;
    assert TripleAt(msg, t);
    assert !(LiteralEnd(msg, start + 1) < t);
  }

  /** At the end of the message the pending sequence is the last segment. */
  lemma EndIsReached(msg: seq<byte>, start: nat, count: nat, repeats: nat, state: State)
    requires Pending(msg, start, count, repeats, state) && start + count == |msg| && count > 0
    ensures IsRun(msg, start) == (state == RepeatSeq) && SegmentEnd(msg, start) == |msg|
  {
    if state == RepeatSeq {
      RunIsBroken(msg, start, count, repeats);
    } else {
      assert LiteralEnd(msg, start + 1) < |msg| ==> TripleAt(msg, LiteralEnd(msg, start + 1));
    }
  }

  datatype PendingState = PendingState(start: nat, count: nat, repeats: nat, state: State)

  /** What one more byte, equal to its predecessor or not, turns a pending sequence into. */
  function NextPending(start: nat, count: nat, repeats: nat, state: State, same: bool): PendingState {
    var curr := start + count;
    match state
    case Init => PendingState(start, 1, 0, NonRepeatSeq)
    case RepeatSeq =>
      if same then PendingState(start, count + 1, repeats + 1, RepeatSeq)
      else PendingState(curr, 1, 0, NonRepeatSeq)
    case NonRepeatSeq =>
      if !same then PendingState(start, count + 1, 0, NonRepeatSeq)
      else if repeats >= 1 then PendingState(if curr >= 2 then curr - 2 else 0, 3, 2, RepeatSeq)
      else PendingState(start, count + 1, 1, if count == 1 then RepeatSeq else NonRepeatSeq)
  }

  lemma PendingIsKept(msg: seq<byte>, start: nat, count: nat, repeats: nat, state: State)
    requires Pending(msg, start, count, repeats, state) && start + count < |msg|
    ensures var curr := start + count;
            var p := NextPending(start, count, repeats, state, curr > 0 && msg[curr] == msg[curr - 1]);
            Pending(msg, p.start, p.count, p.repeats, p.state) && p.start + p.count == curr + 1
  {
    var curr := start + count;
    if state == NonRepeatSeq && repeats == 0 && count >= 2 {
      assert !TripleAt(msg, curr - 2);
    }
  }

  /** Where a sequence is closed, a whole segment of the message has been collected. */
  lemma ClosedSequenceIsSegment(msg: seq<byte>, start: nat, count: nat, repeats: nat, state: State)
    requires Pending(msg, start, count, repeats, state) && start + count < |msg|
    ensures var curr := start + count;
            var p := NextPending(start, count, repeats, state, curr > 0 && msg[curr] == msg[curr - 1]);
            p.start != start ==> IsRun(msg, start) == (state == RepeatSeq) && SegmentEnd(msg, start) == p.start
  {
    var curr := start + count;
    var same := curr > 0 && msg[curr] == msg[curr - 1];
    if state == RepeatSeq && !same {
      RunIsBroken(msg, start, count, repeats);
    } else if state == NonRepeatSeq && same && repeats == 1 {
      LiteralIsBroken(msg, start, count);
    }
  }

  /** The write for the sequence msg[start..end]. */
  function WriteFor(isRun: bool, start: nat, end: nat): WriteInfo
    requires start <= end
  {
    WriteInfo(true, Header(isRun, end - start), start, PayloadLength(isRun, end - start))
  }

  /** `w` asks for the record of the segment of `msg` that starts at `p`. */
  ghost predicate Describes(w: WriteInfo, msg: seq<byte>, p: nat) {
    p < |msg| && w == WriteFor(IsRun(msg, p), p, SegmentEnd(msg, p))
  }

  class Encoder {
    var totalSize: nat
    var writeInfo: WriteInfo
    var lastByte: byte
    var seqStart: nat
    var state: State
    var seqCount: nat
    var numRepeats: nat
    var currOffset: nat

    constructor ()
      ensures IsClear()
    {
      totalSize, writeInfo, lastByte, seqStart, state := 0, NO_WRITE, 0, 0, Init;
      seqCount, numRepeats, currOffset := 0, 0, 0;
    }

    ghost predicate IsClear()
      reads this
    {
      && totalSize == 0 && writeInfo == NO_WRITE && lastByte == 0 && seqStart == 0 && state == Init
      && seqCount == 0 && numRepeats == 0 && currOffset == 0
    }

    /** Back to the state of a new encoder. */
    method Clear()
      modifies this
      ensures IsClear()
    {
      totalSize, writeInfo, lastByte, seqStart, state := 0, NO_WRITE, 0, 0, Init;
      seqCount, numRepeats, currOffset := 0, 0, 0;
    }

    /** The bytes fed so far are the first `currOffset` bytes of `msg`, of which those before
      * `seqStart` have been asked to be written. */
    ghost predicate Tracks(msg: seq<byte>)
      reads `lastByte, `seqStart, `state, `seqCount, `numRepeats, `currOffset
    {
      && |msg| < INT32_LIMIT
      && currOffset == seqStart + seqCount <= |msg|
      && Pending(msg, seqStart, seqCount, numRepeats, state)
      && (currOffset > 0 ==> lastByte == msg[currOffset - 1])
    }

    lemma TracksFromStart(msg: seq<byte>)
      requires IsClear() && |msg| < INT32_LIMIT
      ensures Tracks(msg)
    {
    }

    method HandleRleChange()
      requires seqCount < INT32_LIMIT && numRepeats <= currOffset
      modifies `writeInfo, `totalSize, `seqStart, `seqCount
      ensures writeInfo == WriteFor(state == RepeatSeq, old(seqStart), old(seqStart) + old(seqCount))
      ensures totalSize == old(totalSize) + |writeInfo.header| + writeInfo.length
      ensures seqStart == (if state == RepeatSeq then currOffset else currOffset - numRepeats)
      ensures seqCount == (if state == RepeatSeq then 0 else numRepeats)
    {
      var repeatedPattern := state == RepeatSeq;
      var header := new byte[V.MAX_U32_LENGTH];
      var rleSize: int := if repeatedPattern then seqCount else -(seqCount as int);
      var headerLength := V.EncodeSi32(rleSize, header, 0);
      writeInfo := WriteInfo(true, header[..headerLength], seqStart, if repeatedPattern then 1 else seqCount);
      totalSize := totalSize + headerLength + writeInfo.length;
      if repeatedPattern {
        seqStart, seqCount := currOffset, 0;
      } else {
        seqStart, seqCount := currOffset - numRepeats, numRepeats;
      }
    }

    /** Flushes the last sequence of a message. An encoder that was fed nothing asks for the record
      * of an empty literal, one zero byte that is not part of the encoding of the empty message. */
    method Finalize(ghost msg: seq<byte>)
      requires Tracks(msg) && currOffset == |msg|
      modifies this
      ensures if msg == [] then
                writeInfo == WriteInfo(true, [0], 0, 0)
              else
                writeInfo.available && Describes(writeInfo, msg, old(seqStart)) &&
                SegmentEnd(msg, old(seqStart)) == |msg|
      ensures totalSize == old(totalSize) + |writeInfo.header| + writeInfo.length
      ensures currOffset == old(currOffset)
    {
      if msg != [] {
        EndIsReached(msg, seqStart, seqCount, numRepeats, state);
      }
      HandleRleChange();
    }

    /** Feeds bytes until a sequence to write is found or `buf` runs out; returns how many were taken. */
    method Encode(buf: seq<byte>, ghost msg: seq<byte>) returns (n: nat)
      requires Tracks(msg) && currOffset + |buf| <= |msg|
      requires buf == msg[currOffset..currOffset + |buf|]
      modifies this
      ensures Tracks(msg)
      ensures n <= |buf| && currOffset == old(currOffset) + n
      ensures buf == [] ==> unchanged(this)
      ensures buf != [] && !writeInfo.available ==>
                n == |buf| && writeInfo == NO_WRITE && seqStart == old(seqStart)
      ensures buf != [] && writeInfo.available ==>
                n > 0 && Describes(writeInfo, msg, old(seqStart)) && seqStart == SegmentEnd(msg, old(seqStart))
      ensures totalSize == old(totalSize) + (if buf == [] then 0 else |writeInfo.header| + writeInfo.length)
    {
      if |buf| == 0 {
        return 0;
      }
      writeInfo := NO_WRITE;
      var startOffset := currOffset;
      var i := 0;
      while i < |buf|
        invariant 0 <= i <= |buf| && currOffset == startOffset + i
        invariant Tracks(msg) && writeInfo == NO_WRITE && seqStart == old(seqStart)
        invariant totalSize == old(totalSize)
      {
        assert buf[i] == msg[startOffset..startOffset + |buf|][i];
        EncodeNext(buf[i], msg);
        i := i + 1;
        if writeInfo.available {
          break;
        }
      }
      n := currOffset - startOffset;
    }

    /** `EncodeByte` on the next byte of a message. */
    method EncodeNext(b: byte, ghost msg: seq<byte>)
      requires Tracks(msg) && currOffset < |msg| && b == msg[currOffset] && writeInfo == NO_WRITE
      modifies this
      ensures Tracks(msg) && currOffset == old(currOffset) + 1
      ensures if writeInfo.available then
                Describes(writeInfo, msg, old(seqStart)) && seqStart == SegmentEnd(msg, old(seqStart))
              else
                writeInfo == NO_WRITE && seqStart == old(seqStart)
      ensures totalSize == old(totalSize) + |writeInfo.header| + writeInfo.length
    {
      StepIsTracked(msg);
      EncodeByte(b, msg);
    }

    lemma StepIsTracked(msg: seq<byte>)
      requires Tracks(msg) && currOffset < |msg|
      ensures var same := currOffset != 0 && lastByte == msg[currOffset];
              var p := NextPending(seqStart, seqCount, numRepeats, state, same);
              && Pending(msg, p.start, p.count, p.repeats, p.state) && p.start + p.count == currOffset + 1
              && (p.start != seqStart ==>
                    p.start == SegmentEnd(msg, seqStart) && IsRun(msg, seqStart) == (state == RepeatSeq))
    {
      PendingIsKept(msg, seqStart, seqCount, numRepeats, state);
      ClosedSequenceIsSegment(msg, seqStart, seqCount, numRepeats, state);
    }

    /** The body of the encoder's loop: one byte. A sequence that the byte closes is asked for. */
    method EncodeByte(b: byte, ghost msg: seq<byte>)
      requires Pending(msg, seqStart, seqCount, numRepeats, state)
      requires seqStart + seqCount == currOffset < INT32_LIMIT && writeInfo == NO_WRITE
      modifies this
      ensures var same := old(currOffset) != 0 && old(lastByte) == b;
              var p := NextPending(old(seqStart), old(seqCount), old(numRepeats), old(state), same);
              && seqStart == p.start && seqCount == p.count && numRepeats == p.repeats && state == p.state
              && (if p.start == old(seqStart) then
                    writeInfo == NO_WRITE && totalSize == old(totalSize)
                  else
                    p.start > old(seqStart) &&
                    writeInfo == WriteFor(old(state) == RepeatSeq, old(seqStart), p.start) &&
                    totalSize == old(totalSize) + |writeInfo.header| + writeInfo.length)
      ensures currOffset == old(currOffset) + 1 && lastByte == b
    {
      var isRepeatSeq := currOffset != 0 && lastByte == b;
      if isRepeatSeq {
        numRepeats := numRepeats + 1;
      } else {
        numRepeats := 0;
      }

      match state {
        case RepeatSeq =>
          if !isRepeatSeq {
            HandleRleChange();
          }
          state := NonRepeatSeq;
        case NonRepeatSeq =>
          if isRepeatSeq && numRepeats >= 2 {
            seqCount := seqCount - numRepeats;
            HandleRleChange();
          }
        case Init =>
          state := NonRepeatSeq;
      }

      if numRepeats >= 1 && seqCount == numRepeats {
        state := RepeatSeq;
      }
      lastByte := b;
      seqCount := seqCount + 1;
      currOffset := currOffset + 1;
    }
  }
}
