/** The RAM logger over its ring buffer (components/core/src/memfault_log.c). */
module LogStorage {
  import opened Bytes
  import opened CircularBuffer
  import opened LogQueue

  // ---- Entries in the ring buffer ----

  predicate Storable(entries: seq<Entry>) {
    forall i :: 0 <= i < |entries| ==> |entries[i].msg| < 0x100
  }

  function EntryBytes(e: Entry): (s: seq<byte>)
    requires |e.msg| < 0x100
    ensures |s| == Size(e)
  {
    [e.hdr, |e.msg| as byte] + e.msg
  }

  function Layout(entries: seq<Entry>): (s: seq<byte>)
    requires Storable(entries)
    ensures |s| == TotalSize(entries)
  {
    if entries == [] then [] else Layout(entries[..|entries| - 1]) + EntryBytes(entries[|entries| - 1])
  }

  lemma WithoutLast(entries: seq<Entry>, k: nat)
    requires k < |entries|
    ensures entries[..|entries| - 1][..k] == entries[..k]
    ensures entries[k..][..|entries| - k - 1] == entries[..|entries| - 1][k..]
    ensures entries[k..][|entries| - k - 1] == entries[|entries| - 1]
  {
  }

  lemma {:induction false} LayoutSplits(entries: seq<Entry>, k: nat)
    requires Storable(entries) && k <= |entries|
    ensures Layout(entries) == Layout(entries[..k]) + Layout(entries[k..])
    decreases |entries|
  {
    hide EntryBytes, TotalSize;
    if k == |entries| {
      assert entries[..k] == entries;
    } else {
      var rest := entries[..|entries| - 1];
      LayoutSplits(rest, k);
      WithoutLast(entries, k);
      Regroup(Layout(rest[..k]), Layout(rest[k..]), EntryBytes(entries[|entries| - 1]));
    }
  }

  lemma PushLayout(entries: seq<Entry>, e: Entry)
    requires Storable(entries) && |e.msg| < 0x100
    ensures Storable(entries + [e])
    ensures Layout(entries + [e]) == Layout(entries) + EntryBytes(e)
  {
    hide EntryBytes;
    assert (entries + [e])[..|entries|] == entries;
  }

  lemma TakeOneMore(entries: seq<Entry>, k: nat)
    requires k < |entries|
    ensures entries[..k + 1] == entries[..k] + [entries[k]]
  {
  }

  lemma Parts(entries: seq<Entry>, k: nat)
    requires Storable(entries) && k < |entries|
    ensures Layout(entries) == Layout(entries[..k]) + EntryBytes(entries[k]) + Layout(entries[k + 1..])
    ensures TotalSize(entries[..k + 1]) == TotalSize(entries[..k]) + Size(entries[k])
  {
    hide EntryBytes, Layout, TotalSize, Size;
    LayoutSplits(entries, k + 1);
    TakeOneMore(entries, k);
    PushLayout(entries[..k], entries[k]);
    PushTotal(entries[..k], entries[k]);
  }

  lemma Middle(a: seq<byte>, h: byte, n: byte, m: seq<byte>, c: seq<byte>)
    ensures var s := a + ([h, n] + m) + c;
            && s[|a|..|a| + 2] == [h, n]
            && s[|a| + 2..|a| + 2 + |m|] == m
  {
  }

  /** Where entry `k` lies in the ring buffer. */
  lemma EntryAt(entries: seq<Entry>, k: nat)
    requires Storable(entries) && k < |entries|
    ensures var s, at, e := Layout(entries), TotalSize(entries[..k]), entries[k];
            && at + Size(e) == TotalSize(entries[..k + 1]) <= |s|
            && s[at..at + ENTRY_HEADER] == [e.hdr, |e.msg| as byte]
            && s[at + ENTRY_HEADER..at + Size(e)] == e.msg
  {
    hide Layout, TotalSize;
    Parts(entries, k);
    var e := entries[k];
    Middle(Layout(entries[..k]), e.hdr, |e.msg| as byte, e.msg, Layout(entries[k + 1..]));
  }

  lemma OverwriteMiddle(a: seq<byte>, h: byte, h': byte, n: byte, m: seq<byte>, c: seq<byte>)
    ensures var s := a + ([h, n] + m) + c;
            Overwrite(s, |s| - |a|, [h', n]) == a + ([h', n] + m) + c
  {
  }

  /** Writing the header of entry `k` anew. */
  lemma MarkAt(entries: seq<Entry>, k: nat, hdr: byte)
    requires Storable(entries) && k < |entries|
    ensures var s, at, e := Layout(entries), TotalSize(entries[..k]), entries[k];
            && at <= |s| && Storable(entries[k := e.(hdr := hdr)])
            && Overwrite(s, |s| - at, [hdr, |e.msg| as byte]) == Layout(entries[k := e.(hdr := hdr)])
  {
    hide Layout, TotalSize, Overwrite;
    var e := entries[k];
    var marked := entries[k := e.(hdr := hdr)];
    Parts(entries, k);
    Parts(marked, k);
    MarkedSlices(entries, k, e.(hdr := hdr));
    OverwriteMiddle(Layout(entries[..k]), e.hdr, hdr, |e.msg| as byte, e.msg, Layout(entries[k + 1..]));
  }

  /** Everything behind the first entry. */
  lemma DropFront(entries: seq<Entry>)
    requires Storable(entries) && entries != []
    ensures Size(entries[0]) <= |Layout(entries)|
    ensures Layout(entries[1..]) == Layout(entries)[Size(entries[0])..]
  {
    hide Layout, TotalSize;
    LayoutSplits(entries, 1);
    assert entries[..1] == [entries[0]];
    SingleTotal(entries[0]);
  }

  // ---- The logger ----

  /** The entry that is made of a log: a line that is too long is cut, a timestamp goes in front. */
  function NewEntry(level: nat, compact: bool, timestamp: Option<nat>, log: seq<byte>): (e: Entry)
    requires level < 8 && (timestamp.Some? ==> timestamp.value < UINT32_LIMIT)
    ensures |e.msg| < 0x100
  {
    var line := if |log| <= MAX_LINE then log else log[..MAX_LINE];
    Entry(BuildHeader(level, compact, timestamp.Some?),
          (if timestamp.Some? then Word(timestamp.value) else []) + line)
  }

  class Logger {
    const ring: CircularBuffer
    var enabled: bool
    var minLevel: nat
    var logReadOffset: nat
    var droppedCount: nat
    var recordedCount: nat
    var lastDroppedCount: nat
    /** Set by the log data source while it uploads. */
    var collecting: bool
    ghost var entries: seq<Entry>

    constructor (storage: array<byte>, minLevel: nat)
      requires 0 < storage.Length < INT32_LIMIT
      modifies storage
      ensures Valid() && State() == EMPTY && enabled && this.minLevel == minLevel
      ensures ring.storage == storage && fresh(ring)
    {
      ring := new CircularBuffer(storage);
      enabled, this.minLevel, logReadOffset, droppedCount, recordedCount := true, minLevel, 0, 0, 0;
      lastDroppedCount, collecting, entries := 0, false, [];
    }

    ghost function State(): State
      reads this
    {
      LogQueue.State(entries, logReadOffset, droppedCount, recordedCount, lastDroppedCount, collecting)
    }

    function Capacity(): nat {
      ring.storage.Length
    }

    ghost predicate Valid()
      reads `entries, `logReadOffset, `droppedCount, `recordedCount, ring, ring.storage
    {
      && ring.Valid() && Capacity() < INT32_LIMIT
      && Storable(entries) && ring.Contents() == Layout(entries)
      && logReadOffset < UINT32_LIMIT && droppedCount < UINT32_LIMIT && recordedCount < UINT32_LIMIT
    }

    /** The header and the message length of the entry at `offset`. */
    method ReadEntry(offset: nat) returns (ok: bool, hdr: byte, len: byte)
      requires ring.Valid()
      ensures ok == (offset + ENTRY_HEADER <= |ring.Contents()|)
      ensures ok ==> ring.Contents()[offset..offset + ENTRY_HEADER] == [hdr, len]
    {
      hide CircularBuffer.Contents, Splice;
      var entry := new byte[ENTRY_HEADER];
      ghost var was := entry[..];
      ok := ring.Read(offset, entry, 0, ENTRY_HEADER);
      hdr, len := entry[0], entry[1];
      if ok {
        SpliceAtStart(was, ring.Contents()[offset..offset + ENTRY_HEADER]);
        assert entry[..] == entry[..][..ENTRY_HEADER];
        assert entry[..] == [hdr, len];
      }
    }

    /** The entry that follows the first `k` ones. */
    method EntryBehind(offset: nat, ghost k: nat) returns (ok: bool, hdr: byte, len: byte)
      requires Valid() && k <= |entries| && offset == TotalSize(entries[..k])
      ensures ok <==> k < |entries|
      ensures ok ==> hdr == entries[k].hdr && len as nat == |entries[k].msg|
      ensures ok ==> offset + Size(entries[k]) == TotalSize(entries[..k + 1])
    {
      hide CircularBuffer.Contents, Layout, TotalSize;
      if k < |entries| {
        EntryAt(entries, k);
      } else {
        assert entries[..k] == entries;
      }
      ok, hdr, len := ReadEntry(offset);
    }

    /** Drops the oldest entry; returns the space it took. */
    method ExpireOldest() returns (spaceToFree: nat)
      requires Valid() && entries != []
      modifies this`logReadOffset, this`droppedCount, this`entries, ring`readOffset, ring`readSize
      ensures Valid() && State() == DropOldest(old(State()))
      ensures spaceToFree == Size(old(entries)[0]) && ring.readSize == old(ring.readSize) - spaceToFree
      ensures ring.readOffset == Wrap(old(ring.readOffset), spaceToFree, Capacity())
    {
      hide CircularBuffer.Contents, Layout, TotalSize, Minus, IsRead, IsSent;
      assert entries[..0] == [];
      EmptyTotal();
      var found, hdr, len := EntryBehind(0, 0);
      spaceToFree := len as nat + ENTRY_HEADER;
      FrontEntry(entries, hdr, len);
      if hdr >= 0x80 || hdr % 0x80 >= 0x40 {
        logReadOffset := (logReadOffset - spaceToFree) % UINT32_LIMIT;
      } else {
        droppedCount := (droppedCount + 1) % UINT32_LIMIT;
      }
      DropFront(entries);
      var consumed := ring.Consume(spaceToFree);
      entries := entries[1..];
    }

    /** Makes room by dropping the oldest entries, unless the logs are being uploaded. */
    method TryFreeSpace(bytesNeeded: nat) returns (ok: bool)
      requires Valid()
      modifies this`logReadOffset, this`droppedCount, this`entries, ring`readOffset, ring`readSize
      ensures Valid()
      ensures var needed := bytesNeeded + |old(ring.Contents())| - Capacity();
              && ok == (needed <= 0 || (bytesNeeded <= Capacity() && !collecting))
              && State() == (if ok then Free(old(State()), needed) else old(State()))
              && (ok ==> |ring.Contents()| + bytesNeeded <= Capacity())
              && ring.readSize <= old(ring.readSize)
              && ring.readOffset == Wrap(old(ring.readOffset), old(ring.readSize) - ring.readSize, Capacity())
              && (needed <= 0 || !ok ==> ring.readOffset == old(ring.readOffset))
    {
      hide CircularBuffer.Contents, Layout, Size, Minus, IsRead, IsSent, Wrap;
      WrapNothing(ring.readOffset, Capacity());
      var needed := bytesNeeded - ring.WriteSize();
      if needed <= 0 {
        return true;
      }
      var totReadSpace := ring.readSize;
      if needed > totReadSpace {
        return false;
      }
      if collecting {
        return false;
      }
      ghost var result := Free(State(), needed);
      while totReadSpace != 0
        invariant Valid() && !collecting && totReadSpace == ring.readSize
        invariant 0 < needed <= totReadSpace
        invariant needed == bytesNeeded - ring.WriteSize()
        invariant Free(State(), needed) == result
        invariant ring.readSize <= old(ring.readSize)
        invariant ring.readOffset == Wrap(old(ring.readOffset), old(ring.readSize) - ring.readSize, Capacity())
        decreases |entries|
      {
        NotEmpty(entries);
        FrontFits(entries);
        WrapTwice(old(ring.readOffset), old(ring.readSize) - ring.readSize, Size(entries[0]), Capacity());
        var spaceToFree := ExpireOldest();
        needed := needed - spaceToFree;
        if needed <= 0 {
          return true;
        }
        totReadSpace := ring.readSize;
      }
      return false;
    }

    predicate ShouldLog(level: nat)
      reads this
    {
      enabled && level >= minLevel
    }

    /** Records a log, or counts it as dropped if there is no room for it. A log whose level is too low is
      * neither, and so is a compact log that is too long. */
    method LogSave(level: nat, log: seq<byte>, compact: bool, timestamp: Option<nat>) returns (written: bool)
      requires Valid() && level < 8 && (timestamp.Some? ==> timestamp.value < UINT32_LIMIT)
      modifies this`logReadOffset, this`droppedCount, this`recordedCount, this`entries
      modifies ring`readOffset, ring`readSize, ring.storage
      ensures Valid()
      ensures !enabled || level < minLevel || (compact && |log| > 128) ==> !written && State() == old(State())
      ensures enabled && level >= minLevel && !(compact && |log| > 128) ==>
                var e := NewEntry(level, compact, timestamp, log);
                && State() == Save(old(State()), e, Capacity())
                && written == !IsRejected(old(State()), e, Capacity())
      ensures enabled && level >= minLevel && !(compact && |log| > 128) ==>
                var e := NewEntry(level, compact, timestamp, log);
                ring.readOffset == Wrap(old(ring.readOffset), Freed(old(State()), e, Capacity()), Capacity())
      ensures collecting ==> ring.readOffset == old(ring.readOffset)
      ensures enabled && level >= minLevel && !(compact && |log| > 128) ==>
                var size := 2 + (if timestamp.Some? then 4 else 0) + Min(|log|, 128);
                written == (TotalSize(old(entries)) + size <= Capacity() || (size <= Capacity() && !collecting))
    {
      hide CircularBuffer.Contents, Layout, Size, TotalSize, Free, FreedCount, Word, BuildHeader, Pieces, Wrap,
           DropFirst;
      WrapNothing(ring.readOffset, Capacity());
      if !ShouldLog(level) {
        return false;
      }
      if compact && |log| > MAX_LINE {
        return false;
      }
      ghost var e := NewEntry(level, compact, timestamp, log);
      var truncated := Min(|log|, MAX_LINE);
      var totalLen := truncated + if timestamp.Some? then 4 else 0;
      var bytesNeeded := ENTRY_HEADER + totalLen;
      SizeOf(e);
      MessageOf(level, compact, timestamp, log);
      FreedByFree(State(), Missing(State(), e, Capacity()));
      EmptyTotal();
      assert entries[..0] == [];
      var free := TryFreeSpace(bytesNeeded);
      if free {
        recordedCount := (recordedCount + 1) % UINT32_LIMIT;
        WriteEntry(e, BuildHeader(level, compact, timestamp.Some?), timestamp, log[..truncated]);
        written := true;
      } else {
        droppedCount := (droppedCount + 1) % UINT32_LIMIT;
        written := false;
      }
    }

    /** Writes an entry: its header, the timestamp, and the line. */
    method WriteEntry(ghost e: Entry, hdr: byte, timestamp: Option<nat>, line: seq<byte>)
      requires Valid() && (timestamp.Some? ==> timestamp.value < UINT32_LIMIT) && |e.msg| < 0x100
      requires e == Entry(hdr, (if timestamp.Some? then Word(timestamp.value) else []) + line)
      requires |ring.Contents()| + Size(e) <= Capacity()
      modifies this`entries, ring`readSize, ring.storage
      ensures Valid() && entries == old(entries) + [e]
    {
      hide CircularBuffer.Contents, Layout, TotalSize, Word;
      ghost var was := ring.Contents();
      var totalLen := |line| + if timestamp.Some? then 4 else 0;
      var _ := ring.Write([hdr, totalLen as byte]);
      if timestamp.Some? {
        var _ := ring.Write(Word(timestamp.value));
        Regroup(was, [hdr, totalLen as byte], Word(timestamp.value));
        Regroup(was, [hdr, totalLen as byte] + Word(timestamp.value), line);
        Regroup([hdr, totalLen as byte], Word(timestamp.value), line);
      } else {
        Regroup(was, [hdr, totalLen as byte], []);
        Regroup(was, [hdr, totalLen as byte] + [], line);
        Regroup([hdr, totalLen as byte], [], line);
        assert was + [hdr, totalLen as byte] + [] == was + [hdr, totalLen as byte];
      }
      var _ := ring.Write(line);
      PushLayout(entries, e);
      entries := entries + [e];
    }

    /** Rewrites the header of entry `k`, which lies at `offset`. */
    method UpdateEntry(offset: nat, hdr: byte, len: byte, ghost k: nat) returns (ok: bool)
      requires Valid() && k < |entries| && offset == TotalSize(entries[..k]) && len as nat == |entries[k].msg|
      modifies this`entries, ring`readSize, ring.storage
      ensures Valid() && ok && entries == old(entries)[k := old(entries)[k].(hdr := hdr)]
    {
      hide CircularBuffer.Contents, Layout, TotalSize, Overwrite;
      EntryAt(entries, k);
      MarkAt(entries, k, hdr);
      ghost var marked := entries[k := entries[k].(hdr := hdr)];
      MarkedLength(entries, k, hdr);
      var offsetFromEnd := ring.readSize - offset;
      OverwriteLength(ring.Contents(), offsetFromEnd, [hdr, len]);
      ok := ring.WriteAtOffset(offsetFromEnd, [hdr, len]);
      entries := marked;
    }

    /** The message of entry `k`, which begins at `offset`. */
    method CopyMessage(offset: nat, len: byte, ghost k: nat) returns (msg: seq<byte>)
      requires Valid() && k < |entries| && len as nat == |entries[k].msg|
      requires offset == TotalSize(entries[..k]) + ENTRY_HEADER
      ensures msg == entries[k].msg
    {
      hide CircularBuffer.Contents, Layout, TotalSize, Splice;
      var buf := new byte[len as nat];
      ghost var was := buf[..];
      EntryAt(entries, k);
      var _ := ring.Read(offset, buf, 0, len as nat);
      SpliceAtStart(was, entries[k].msg);
      assert buf[..] == buf[..][..len as nat];
      msg := buf[..];
    }

    /** The next log that was not read yet, or how many messages were dropped if there were any since. If
      * the cursor is behind everything, there is no log to read. */
    method ReadLog(ghost r: nat) returns (log: Option<Log>)
      requires Valid() && r <= |entries|
      requires CursorAt(State(), r) || (IsBehind(State()) && logReadOffset + ENTRY_HEADER < UINT32_LIMIT)
      modifies this`logReadOffset, this`lastDroppedCount, this`entries, ring`readSize, ring.storage
      ensures Valid()
      ensures !enabled ==> log == None && State() == old(State())
      ensures enabled ==> (State(), log) == Read(old(State()), r)
      ensures enabled ==> lastDroppedCount == droppedCount == old(droppedCount)
      ensures enabled && old(lastDroppedCount) != droppedCount && droppedCount > 0 ==> log == Some(Notice(droppedCount))
    {
      hide CircularBuffer.Contents, Layout, TotalSize, CursorAt, LineOf, MarkRead, IsRead;
      if CursorAt(State(), r) {
        Cursor(State(), r);
        BehindWhenAllRead(State(), r);
      }
      ghost var s := State();
      if !enabled {
        return None;
      }
      if lastDroppedCount != droppedCount {
        lastDroppedCount := droppedCount;
        if lastDroppedCount > 0 {
          return Some(Notice(droppedCount));
        }
      }
      log := ReadEntryAtCursor(r);
    }

    /** Marks the entry at the cursor as read and moves the cursor behind it. */
    method ReadEntryAtCursor(ghost r: nat) returns (log: Option<Log>)
      requires Valid() && r <= |entries|
      requires !IsBehind(State()) ==> r < |entries| && logReadOffset == TotalSize(entries[..r])
      modifies this`logReadOffset, this`entries, ring`readSize, ring.storage
      ensures Valid()
      ensures IsBehind(old(State())) ==> log == None && unchanged(this)
      ensures !IsBehind(old(State())) ==>
                && entries == old(entries)[r := MarkRead(old(entries)[r])]
                && logReadOffset == old(logReadOffset) + Size(old(entries)[r])
                && log == Some(LineOf(old(entries)[r]))
    {
      hide CircularBuffer.Contents, Layout, TotalSize;
      if r < |entries| {
        EntryAt(entries, r);
      }
      var found, hdr, len := ReadEntry(logReadOffset);
      if !found {
        return None;
      }
      ghost var e := entries[r];
      EntryAt(entries, r);
      var marked := if hdr >= 0x80 then hdr else hdr + 0x80;
      var _ := UpdateEntry(logReadOffset, marked, len, r);
      MarkIsRead(e);
      Unmarked(old(entries), r, entries[r]);
      var msg := CopyMessage(logReadOffset + ENTRY_HEADER, len, r);
      LineOfMarked(e, marked);
      log := Some(LineFrom(marked, msg));
      logReadOffset := logReadOffset + ENTRY_HEADER + len as nat;
    }
  }

  /** A log as it is handed to the reader: a timestamp is split off. */
  function LineFrom(hdr: byte, msg: seq<byte>): Log {
    if hdr % 0x20 >= 0x10 && |msg| >= 4
    then Line((hdr % 0x08) as nat, hdr % 0x10 >= 0x08, Some(msg[..4]), msg[4..])
    else Line((hdr % 0x08) as nat, hdr % 0x10 >= 0x08, None, msg)
  }

  /** Freeing leaves the entries behind those that are freed. */
  lemma FreedByFree(s: State, needed: int)
    requires s.cursor < UINT32_LIMIT && s.dropped < UINT32_LIMIT
    ensures var k := FreedCount(s.entries, needed);
            TotalSize(s.entries) - TotalSize(Free(s, needed).entries) == TotalSize(s.entries[..k])
  {
    hide Free, TotalSize;
    FreeIs(s, needed);
    TotalSizeSplits(s.entries, FreedCount(s.entries, needed));
  }

  lemma WrapNothing(start: nat, n: nat)
    requires start < n
    ensures Wrap(start, 0, n) == start
  {
  }

  lemma FrontFits(entries: seq<Entry>)
    requires Storable(entries) && entries != []
    ensures Size(entries[0]) <= |Layout(entries)|
  {
    hide Layout;
    DropFront(entries);
  }

  lemma NotEmpty(entries: seq<Entry>)
    requires Storable(entries)
    ensures |Layout(entries)| > 0 ==> entries != []
  {
  }

  /** What the header of the first entry says of it. */
  lemma FrontEntry(entries: seq<Entry>, hdr: byte, len: byte)
    requires entries != [] && entries[0].hdr == hdr && |entries[0].msg| == len as nat
    ensures hdr >= 0x80 || hdr % 0x80 >= 0x40 <==> IsRead(entries[0]) || IsSent(entries[0])
    ensures len as nat + ENTRY_HEADER == Size(entries[0])
    ensures forall c: nat :: Minus(c, Size(entries[0])) == (c - Size(entries[0])) % UINT32_LIMIT
  {
  }

  lemma SizeOf(e: Entry)
    ensures Size(e) == ENTRY_HEADER + |e.msg|
  {
  }

  lemma MessageOf(level: nat, compact: bool, timestamp: Option<nat>, log: seq<byte>)
    requires level < 8 && (timestamp.Some? ==> timestamp.value < UINT32_LIMIT)
    ensures var n := Min(|log|, MAX_LINE);
            && NewEntry(level, compact, timestamp, log) ==
               Entry(BuildHeader(level, compact, timestamp.Some?),
                     (if timestamp.Some? then Word(timestamp.value) else []) + log[..n])
            && |NewEntry(level, compact, timestamp, log).msg| == n + if timestamp.Some? then 4 else 0
  {
    hide BuildHeader, Word;
    assert log[..|log|] == log;
  }

  lemma MarkedLength(entries: seq<Entry>, k: nat, hdr: byte)
    requires k < |entries|
    ensures TotalSize(entries[k := entries[k].(hdr := hdr)]) == TotalSize(entries)
  {
    hide TotalSize;
    var marked := entries[k := entries[k].(hdr := hdr)];
    MarkedSlices(entries, k, marked[k]);
    TotalSizeSplits(entries, k + 1);
    TotalSizeSplits(marked, k + 1);
    TakeOneMore(entries, k);
    TakeOneMore(marked, k);
    PushTotal(entries[..k], entries[k]);
    PushTotal(entries[..k], marked[k]);
  }

  lemma Cursor(s: State, r: nat)
    requires CursorAt(s, r)
    ensures r <= |s.entries| && s.cursor == TotalSize(s.entries[..r])
  {
  }

  lemma MarkIsRead(e: Entry)
    ensures MarkRead(e) == e.(hdr := if e.hdr >= 0x80 then e.hdr else e.hdr + 0x80)
  {
  }

  lemma Unmarked(entries: seq<Entry>, r: nat, e: Entry)
    requires r < |entries|
    ensures entries[r := e][..r] == entries[..r]
  {
  }

  /** Marking a log as read leaves what is read of it. */
  lemma LineOfMarked(e: Entry, marked: byte)
    requires marked == MarkRead(e).hdr
    ensures LineFrom(marked, e.msg) == LineOf(e)
  {
    hide MarkRead;
    MarksAreSeparate(e);
  }
}
