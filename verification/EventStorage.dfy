/** The store for serialized events, in a ring buffer (components/core/src/memfault_event_storage.c). */
module EventStorage {
  import opened Bytes
  import opened CircularBuffer
  import opened EventQueue
  import Cbor

  /** The size field of the record at the front of `s`. */
  lemma FirstRecord(events: seq<seq<byte>>, k: nat, tail: seq<byte>)
    requires k < |events| && HEADER_SIZE + |events[k]| < WRITE_IN_PROGRESS
    ensures var s := Records(events) + tail;
            var at := |Records(events[..k])|;
            && at + HEADER_SIZE + |events[k]| <= |Records(events)| <= |s|
            && SizeFromBytes(s[at..at + HEADER_SIZE]) == HEADER_SIZE + |events[k]|
            && s[at + HEADER_SIZE..at + HEADER_SIZE + |events[k]|] == events[k]
            && |Records(events[..k + 1])| == at + HEADER_SIZE + |events[k]|
  {
    hide Records, SizeBytes, SizeFromBytes;
    var before, event, after := events[..k], events[k], events[k + 1..];
    DroppedRecords(events, k);
    HeadRecord(events[k..]);
    TakeSnoc(events, k);
    RecordsSnoc(before, event);
    assert events[k..][1..] == after;
    var s := Records(events) + tail;
    var rest := Records(after) + tail;
    assert s == Records(before) + (SizeBytes(HEADER_SIZE + |event|) + (event + rest));
    SizeRoundTrip(HEADER_SIZE + |event|);
    Pieces3(Records(before), SizeBytes(HEADER_SIZE + |event|), event, rest);
  }

  lemma HeadRecord(events: seq<seq<byte>>)
    requires events != []
    ensures Records(events) == Record(events[0]) + Records(events[1..])
  {
  }

  lemma Pieces3(a: seq<byte>, b: seq<byte>, c: seq<byte>, d: seq<byte>)
    ensures var s := a + (b + (c + d));
            && s[|a|..|a| + |b|] == b
            && s[|a| + |b|..|a| + |b| + |c|] == c
  {
  }

  /** Behind the committed records comes the marker of the record being written, or nothing. */
  lemma LastRecord(events: seq<seq<byte>>, writing: Option<seq<byte>>)
    ensures var s := Records(events) + Unfinished(writing);
            var at := |Records(events)|;
            if writing.None? then |s| == at
            else at + HEADER_SIZE <= |s| && SizeFromBytes(s[at..at + HEADER_SIZE]) == WRITE_IN_PROGRESS
  {
    hide Records, SizeBytes, SizeFromBytes;
    SizeRoundTrip(WRITE_IN_PROGRESS);
    if writing.Some? {
      Pieces3(Records(events), SizeBytes(WRITE_IN_PROGRESS), writing.value, []);
      assert Records(events) + Unfinished(writing) ==
             Records(events) + (SizeBytes(WRITE_IN_PROGRESS) + (writing.value + []));
    }
  }

  /** What the reader finds behind the first `n` records. */
  lemma RecordAt(s: State, n: nat)
    requires n <= |s.events| && |Layout(s)| < WRITE_IN_PROGRESS
    ensures var at := |Records(s.events[..n])|;
            && at <= |Layout(s)| && |Flatten(s.events[..n])| + HEADER_SIZE * n == at
            && (n < |s.events| ==>
                  && at + HEADER_SIZE <= |Layout(s)|
                  && SizeFromBytes(Layout(s)[at..at + HEADER_SIZE]) == HEADER_SIZE + |s.events[n]| < WRITE_IN_PROGRESS
                  && |Records(s.events[..n + 1])| == at + HEADER_SIZE + |s.events[n]|
                  && |Flatten(s.events[..n + 1])| == |Flatten(s.events[..n])| + |s.events[n]|)
            && (n == |s.events| && at + HEADER_SIZE <= |Layout(s)| ==>
                  SizeFromBytes(Layout(s)[at..at + HEADER_SIZE]) == WRITE_IN_PROGRESS)
            && (n == 0 ==> at == 0)
  {
    hide Records, Flatten, SizeFromBytes, Unfinished;
    RecordsLength(s.events[..n]);
    if n < |s.events| {
      DroppedRecords(s.events, n);
      HeadRecord(s.events[n..]);
      FirstRecord(s.events, n, Unfinished(s.writing));
      TakeSnoc(s.events, n);
      FlattenSnoc(s.events[..n], s.events[n]);
    } else {
      LastRecord(s.events, s.writing);
      assert s.events[..n] == s.events;
    }
    if n == 0 {
      NoRecords();
      assert s.events[..0] == [];
    }
  }

  lemma NoRecords()
    ensures Records([]) == []
  {
  }

  class EventStorage {
    const buffer: CircularBuffer
    const config: Config
    var writeInProgress: bool
    var bytesWritten: nat
    var activeEventReadSize: nat
    var numEvents: nat
    var eventHeader: seq<byte>
    /** The queue that the ring buffer stands for. */
    ghost var state: State

    constructor (storage: array<byte>, config: Config)
      requires 0 < storage.Length < WRITE_IN_PROGRESS
      modifies storage
      ensures Valid() && state == State([], None, 0) && this.config == config
      ensures buffer.storage == storage && fresh(buffer)
    {
      buffer := new CircularBuffer(storage);
      this.config := config;
      writeInProgress, bytesWritten, activeEventReadSize, numEvents, eventHeader := false, 0, 0, 0, [];
      state := State([], None, 0);
    }

    function Capacity(): nat {
      buffer.storage.Length
    }

    ghost predicate Valid()
      reads this, buffer, buffer.storage
    {
      && buffer.Valid() && Capacity() < WRITE_IN_PROGRESS
      && EventQueue.Valid(state)
      && buffer.Contents() == Layout(state)
      && writeInProgress == state.writing.Some?
      && (state.writing.Some? ==> bytesWritten == HEADER_SIZE + |state.writing.value|)
      && numEvents == state.reading
      && activeEventReadSize == |Records(state.events[..state.reading])|
      && eventHeader == BatchHeader(state.reading)
    }

    // ---- The writer ----

    /** Starts an event and returns the space there is for it; 0 when it cannot be started. */
    method BeginWrite() returns (space: nat)
      requires Valid()
      modifies this, buffer, buffer.storage
      ensures Valid() && state == Begin(old(state), Capacity())
      ensures space == if old(state).writing.None? && state.writing.Some? then Capacity() - |Layout(state)| else 0
    {
      hide SizeBytes, CircularBuffer.Contents, Records, BatchHeader;
      if writeInProgress {
        return 0;
      }
      var success := buffer.Write(SizeBytes(WRITE_IN_PROGRESS));
      if !success {
        return 0;
      }
      assert Layout(state.(writing := Some([]))) == Layout(state) + SizeBytes(WRITE_IN_PROGRESS);
      state := state.(writing := Some([]));
      writeInProgress, bytesWritten := true, HEADER_SIZE;
      return buffer.WriteSize();
    }

    /** Adds bytes to the event that is being written. Without one, they are added all the same, and no
      * longer belong to any record. */
    method AppendData(bytes: seq<byte>) returns (success: bool)
      requires Valid()
      modifies this, buffer, buffer.storage
      ensures success == (|Layout(old(state))| + |bytes| <= Capacity())
      ensures old(state).writing.Some? ==> Valid() && state == EventQueue.Append(old(state), Capacity(), bytes)
      ensures old(state).writing.None? ==>
                buffer.Valid() && state == old(state) &&
                buffer.Contents() == Layout(state) + if success then bytes else []
    {
      hide SizeBytes, CircularBuffer.Contents, Records, BatchHeader;
      success := buffer.Write(bytes);
      if success {
        if state.writing.Some? {
          AppendLayout(state, bytes);
          state := state.(writing := Some(state.writing.value + bytes));
        }
        bytesWritten := bytesWritten + |bytes|;
      }
    }

    /** Commits the event, by writing its size over the marker, or takes all of it back. */
    method FinishWrite(rollback: bool)
      requires Valid()
      modifies this, buffer, buffer.storage
      ensures Valid() && state == Finish(old(state), rollback)
    {
      hide SizeBytes, CircularBuffer.Contents, Records, BatchHeader, Overwrite;
      if !writeInProgress {
        return;
      }
      FinishLayout(state);
      SameBatch(state, Finish(state, rollback));
      if rollback {
        var _ := buffer.ConsumeFromEnd(bytesWritten);
      } else {
        var _ := buffer.WriteAtOffset(bytesWritten, SizeBytes(bytesWritten));
      }
      state := Finish(state, rollback);
      writeInProgress, bytesWritten := false, 0;
    }

    // ---- The reader ----

    /** Reads the size field of the record at `offset`. */
    method ReadSizeField(offset: nat) returns (success: bool, size: nat)
      requires buffer.Valid()
      ensures success == (offset + HEADER_SIZE <= |buffer.Contents()|)
      ensures success ==> size == SizeFromBytes(buffer.Contents()[offset..offset + HEADER_SIZE])
    {
      hide CircularBuffer.Contents, Splice;
      var hdr := new byte[HEADER_SIZE];
      ghost var was := hdr[..];
      success := buffer.Read(offset, hdr, 0, HEADER_SIZE);
      size := 0;
      if success {
        SpliceAtStart(was, buffer.Contents()[offset..offset + HEADER_SIZE]);
        assert hdr[..] == hdr[..][..HEADER_SIZE];
        size := SizeFromBytes(hdr[..]);
      }
    }

    method TotalEventSize() returns (size: nat)
      requires Valid()
      ensures size == TotalSize(state)
    {
      hide Records, Flatten, BatchHeader, Layout;
      RecordsLength(state.events[..state.reading]);
      if numEvents == 0 {
        return 0;
      }
      size := activeEventReadSize + |eventHeader| - numEvents * HEADER_SIZE;
    }

    /** Walks over the committed events to find out which ones to read next. */
    method ComputeReadState() returns (readSize: nat, n: nat, header: seq<byte>)
      requires Valid()
      ensures n == BatchSize(config, state.events)
      ensures readSize == |Records(state.events[..n])|
      ensures header == BatchHeader(n)
    {
      hide Records, Flatten, BatchHeader, CircularBuffer.Contents, SizeFromBytes, Unfinished;
      readSize, n := 0, 0;
      RecordAt(state, 0);
      while true
        invariant n <= |state.events| && readSize == |Records(state.events[..n])|
        invariant config.batching ==>
                    BatchFrom(config, state.events, n, |Flatten(state.events[..n])|) == BatchSize(config, state.events)
        invariant !config.batching ==> n == 0
        decreases |state.events| - n
      {
        var success, size := ReadSizeField(readSize);
        RecordAt(state, n);
        if !success || size == WRITE_IN_PROGRESS {
          break;
        }
        n := n + 1;
        readSize := readSize + size;
        if !config.batching {
          break;
        }
        if n > 1 && readSize - n * HEADER_SIZE > config.maxBatchBytes {
          n := n - 1;
          readSize := readSize - size;
          break;
        }
      }
      header := BatchHeader(n);
    }

    /** Whether there is a message to read, and its size. While one is being read, it stays the same. */
    method HasData() returns (has: bool, size: nat)
      requires Valid()
      modifies this
      ensures Valid() && state == EventQueue.HasData(old(state), config)
      ensures size == TotalSize(state) && has == (size != 0)
    {
      hide Records, BatchHeader, Unfinished, BatchSize, CircularBuffer.Contents, Flatten;
      var current := TotalEventSize();
      if current != 0 {
        return true, current;
      }
      activeEventReadSize, numEvents, eventHeader := ComputeReadState();
      state := state.(reading := numEvents);
      size := TotalEventSize();
      has := size != 0;
    }

    /** Copies `len` bytes of the message being read, from `offset` on, to `buf` at index `at`; they
      * are collected from the records in the ring buffer. */
    method ReadMsg(offset: nat, buf: array<byte>, at: nat, len: nat) returns (ok: bool)
      requires Valid() && at + len <= buf.Length && buf != buffer.storage
      modifies buf
      ensures ok == (offset + len <= TotalSize(state))
      ensures offset + len <= TotalSize(state) ==> offset + len <= |BatchMessage(state.events[..state.reading])|
      ensures buf[..] == if ok
                         then Splice(old(buf[..]), at, BatchMessage(state.events[..state.reading])[offset..offset + len])
                         else old(buf[..])
    {
      hide Records, BatchHeader, Flatten, CircularBuffer.Contents, Splice, Layout, SizeFromBytes, BatchMessage;
      MessageParts(state);
      var total := TotalEventSize();
      if offset + len > total {
        return false;
      }
      ghost var was, msg := buf[..], BatchMessage(state.events[..state.reading]);
      var bufp, bufLen, pos := at, len, offset;
      if pos < |eventHeader| {
        var n := Min(bufLen, |eventHeader| - pos);
        SliceOfSlice(msg, 0, eventHeader, pos, n);
        CopyInto(buf, bufp, eventHeader[pos..pos + n]);
        bufLen, pos, bufp := bufLen - n, 0, bufp + n;
      } else {
        pos := pos - |eventHeader|;
        SpliceNothing(was, at);
        assert msg[offset..offset] == [];
      }

      var currOffset, readOffset := 0, 0;
      ghost var k := 0;
      RecordAt(state, 0);
      while bufLen > 0
        invariant 0 <= k <= numEvents && currOffset == |Flatten(state.events[..k])|
        invariant readOffset == |Records(state.events[..k])|
        invariant 0 <= bufLen <= len && bufp == at + (len - bufLen)
        invariant bufLen > 0 ==> currOffset <= pos && |eventHeader| + pos == offset + (len - bufLen)
        invariant buf[..] == Splice(was, at, msg[offset..offset + (len - bufLen)])
        decreases numEvents - k
      {
        EventIsLeft(state, k);
        RecordAt(state, k);
        var success, size := ReadSizeField(readOffset);
        readOffset := readOffset + HEADER_SIZE;
        var eventSize := size - HEADER_SIZE;
        if currOffset + eventSize < pos {
          currOffset := currOffset + eventSize;
          readOffset := readOffset + eventSize;
          k := k + 1;
          continue;
        }
        var start := pos - currOffset;
        var n := Min(eventSize - start, bufLen);
        CopyFromEvent(k, start, n, readOffset + start, buf, bufp, was, at, offset);
        bufp, bufLen, pos := bufp + n, bufLen - n, pos + n;
        currOffset := currOffset + eventSize;
        readOffset := readOffset + eventSize;
        k := k + 1;
      }
      ok := true;
    }

    /** Copies `n` bytes of event `k`, which lie at `from` in the ring buffer, behind the part of the
      * message that has been copied already. */
    method CopyFromEvent(ghost k: nat, ghost start: nat, n: nat, from: nat, buf: array<byte>, bufp: nat,
                         ghost was: seq<byte>, ghost at: nat, ghost offset: nat)
      requires Valid() && k < state.reading && start + n <= |state.events[k]|
      requires from == |Records(state.events[..k])| + HEADER_SIZE + start
      requires buf != buffer.storage && bufp + n <= buf.Length == |was|
      requires at <= bufp
      requires |BatchHeader(state.reading)| + |Flatten(state.events[..k])| + start == offset + (bufp - at)
      requires offset + (bufp - at) <= |BatchMessage(state.events[..state.reading])|
      requires buf[..] == Splice(was, at, BatchMessage(state.events[..state.reading])[offset..offset + (bufp - at)])
      modifies buf
      ensures offset + (bufp - at) + n <= |BatchMessage(state.events[..state.reading])|
      ensures buf[..] == Splice(was, at, BatchMessage(state.events[..state.reading])[offset..offset + (bufp - at) + n])
    {
      hide Records, BatchHeader, Flatten, CircularBuffer.Contents, Splice, Layout, BatchMessage;
      ghost var msg, to := BatchMessage(state.events[..state.reading]), offset + (bufp - at);
      PieceOfBatch(state, k, start, n);
      var found := buffer.Read(from, buf, bufp, n);
      SpliceTwice(was, at, msg[offset..to], msg[to..to + n]);
      SplitRange(msg, offset, to, to + n);
    }

    /** Deletes the events that were read. */
    method MarkRead()
      requires Valid()
      modifies this, buffer
      ensures Valid() && state == EventQueue.MarkRead(old(state))
    {
      hide Records, Layout, BatchHeader, CircularBuffer.Contents;
      if activeEventReadSize == 0 {
        NoActiveEvent(state);
        return;
      }
      MarkReadLayout(state);
      var _ := buffer.Consume(activeEventReadSize);
      activeEventReadSize, numEvents, eventHeader := 0, 0, [];
      state := EventQueue.MarkRead(state);
    }
  }

  lemma MarkReadLayout(s: State)
    requires EventQueue.Valid(s)
    ensures var n := |Records(s.events[..s.reading])|;
            n <= |Layout(s)| && Layout(EventQueue.MarkRead(s)) == Layout(s)[n..]
    ensures |Records(EventQueue.MarkRead(s).events[..0])| == 0
    ensures BatchHeader(0) == []
  {
    hide Records, Unfinished;
    DroppedRecords(s.events, s.reading);
    NoRecords();
    assert EventQueue.MarkRead(s).events[..0] == [];
    Behind(Records(s.events[..s.reading]), Records(s.events[s.reading..]), Unfinished(s.writing));
  }

  lemma Behind(a: seq<byte>, b: seq<byte>, c: seq<byte>)
    ensures (a + b + c)[|a|..] == b + c
  {
  }

  lemma MessageParts(s: State)
    requires EventQueue.Valid(s)
    ensures var msg, header := BatchMessage(s.events[..s.reading]), BatchHeader(s.reading);
            && |msg| == |header| + |Flatten(s.events[..s.reading])|
            && TotalSize(s) == |msg|
            && msg[0..|header|] == header
  {
    hide Flatten;
    if s.reading == 0 {
      FlattenFew<byte>([]);
      assert s.events[..0] == [];
    }
  }

  lemma NoActiveEvent(s: State)
    requires EventQueue.Valid(s) && |Records(s.events[..s.reading])| == 0
    ensures s.reading == 0 && EventQueue.MarkRead(s) == s
  {
    hide Records;
    RecordsLength(s.events[..s.reading]);
  }

  /** As long as bytes of the message are missing, there is an event that has not been visited. */
  lemma EventIsLeft(s: State, k: nat)
    requires EventQueue.Valid(s) && k <= s.reading
    ensures |Flatten(s.events[..k])| < |Flatten(s.events[..s.reading])| ==> k < s.reading
  {
  }

  /** Bytes of a record in the ring buffer are bytes of the message. */
  lemma PieceOfBatch(s: State, k: nat, start: nat, n: nat)
    requires EventQueue.Valid(s) && k < s.reading && start + n <= |s.events[k]|
    requires |Layout(s)| < WRITE_IN_PROGRESS
    ensures var from := |Records(s.events[..k])| + HEADER_SIZE + start;
            var msg, to := BatchMessage(s.events[..s.reading]),
                           |BatchHeader(s.reading)| + |Flatten(s.events[..k])| + start;
            && from + n <= |Layout(s)| && to + n <= |msg|
            && Layout(s)[from..from + n] == msg[to..to + n]
  {
    hide Records, Flatten, BatchHeader, SizeFromBytes;
    var at := |Records(s.events[..k])| + HEADER_SIZE;
    RecordsLength(s.events[..k]);
    FirstRecordFits(s, k);
    FirstRecord(s.events, k, Unfinished(s.writing));
    SliceOfSlice(Layout(s), at, s.events[k], start, n);
    EventInBatch(s.events[..s.reading], k);
    var batch := s.events[..s.reading];
    assert batch[..k] == s.events[..k];
    var f := |Flatten(batch[..k])|;
    SliceOfSlice(Flatten(batch), f, batch[k], start, n);
    var msg := BatchMessage(batch);
    SliceOfSlice(msg, |BatchHeader(s.reading)|, Flatten(batch), f + start, n);
  }

  lemma FirstRecordFits(s: State, k: nat)
    requires k < |s.events| && |Layout(s)| < WRITE_IN_PROGRESS
    ensures HEADER_SIZE + |s.events[k]| < WRITE_IN_PROGRESS
  {
    hide Flatten;
    DroppedRecords(s.events, k);
    HeadRecord(s.events[k..]);
  }

  lemma {:induction false} EventInBatch(batch: seq<seq<byte>>, k: nat)
    requires k < |batch|
    ensures var at := |Flatten(batch[..k])|;
            at + |batch[k]| <= |Flatten(batch)| && Flatten(batch)[at..at + |batch[k]|] == batch[k]
    decreases k
  {
    if k == 0 {
      assert batch[..0] == [];
    } else {
      EventInBatch(batch[1..], k - 1);
      assert batch[..k][1..] == batch[1..][..k - 1];
      assert batch[1..][k - 1] == batch[k];
      var at := |Flatten(batch[1..][..k - 1])|;
      SliceBehind(batch[0], Flatten(batch[1..]), at, |batch[k]|);
    }
  }

  lemma SliceBehind(a: seq<byte>, b: seq<byte>, at: nat, n: nat)
    requires at + n <= |b|
    ensures (a + b)[|a| + at..|a| + at + n] == b[at..at + n]
  {
  }

  lemma AppendLayout(s: State, bytes: seq<byte>)
    requires s.writing.Some?
    ensures Layout(s.(writing := Some(s.writing.value + bytes))) == Layout(s) + bytes
  {
    hide SizeBytes, Records;
  }

  lemma FinishLayout(s: State)
    requires s.writing.Some?
    ensures var n := HEADER_SIZE + |s.writing.value|;
            && n <= |Layout(s)|
            && Layout(Finish(s, true)) == Layout(s)[..|Layout(s)| - n]
            && Layout(Finish(s, false)) == Overwrite(Layout(s), n, SizeBytes(n))
  {
    hide SizeBytes, Records;
    var part := s.writing.value;
    RecordsSnoc(s.events, part);
    assert Layout(s) == Records(s.events) + SizeBytes(WRITE_IN_PROGRESS) + part;
  }

  lemma SameBatch(s: State, t: State)
    requires EventQueue.Valid(s) && s.events <= t.events && s.reading == t.reading
    ensures s.events[..s.reading] == t.events[..s.reading]
  {
  }
}
