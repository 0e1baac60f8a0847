/** The data source that uploads logs (components/core/src/memfault_log_data_source.c). */
module LogDataSource {
  import opened Bytes
  import opened CircularBuffer
  import opened LogQueue
  import opened LogStorage
  import opened LogUpload
  import Cbor

  // ---- An encoder that only keeps a window of its output ----

  /** The bytes of `s` that lie in the window of `len` bytes at `offset`. */
  function Clip(s: seq<byte>, offset: nat, len: nat): (r: seq<byte>)
    ensures |r| <= len
  {
    s[Min(offset, |s|)..Min(offset + len, |s|)]
  }

  /** Bytes that do not reach into the window, or come behind it, do not change what is in it. */
  lemma ClipStays(s: seq<byte>, src: seq<byte>, offset: nat, len: nat)
    requires |s| + |src| <= offset || offset + len <= |s|
    ensures Clip(s + src, offset, len) == Clip(s, offset, len)
  {
    hide Clip;
    if |s| + |src| <= offset {
      ClipBefore(s, offset, len);
      ClipBefore(s + src, offset, len);
    } else {
      ClipInside(s, offset, len);
      ClipInside(s + src, offset, len);
      SliceOfFirst(s, src, offset, offset + len);
    }
  }

  lemma NoIntersection(s: seq<byte>, src: seq<byte>, offset: nat, len: nat)
    requires Min(|s| + |src|, offset + len) <= Max(|s|, offset)
    ensures Clip(s + src, offset, len) == Clip(s, offset, len)
  {
    hide Clip;
    if src == [] {
      assert s + src == s;
    } else if len == 0 {
      assert |Clip(s + src, offset, 0)| == |Clip(s, offset, 0)| == 0;
    } else {
      ClipStays(s, src, offset, len);
    }
  }

  /** The first bytes that reach into the window. */
  lemma ClipStarts(s: seq<byte>, src: seq<byte>, offset: nat, len: nat, to: nat)
    requires |s| <= offset < to == Min(|s| + |src|, offset + len)
    ensures Clip(s, offset, len) == []
    ensures Clip(s + src, offset, len) == src[offset - |s|..to - |s|]
  {
    hide Clip;
    ClipBefore(s, offset, len);
    ClipUpTo(s + src, offset, len, to);
    SliceOfSecond(s, src, offset, to);
  }

  /** More bytes in the window. */
  lemma ClipGoesOn(s: seq<byte>, src: seq<byte>, offset: nat, len: nat, to: nat)
    requires offset <= |s| < to == Min(|s| + |src|, offset + len)
    ensures |Clip(s, offset, len)| == |s| - offset
    ensures Clip(s + src, offset, len) == Clip(s, offset, len) + src[0..to - |s|]
  {
    hide Clip;
    ClipUpTo(s, offset, len, |s|);
    ClipUpTo(s + src, offset, len, to);
    SliceOfBoth(s, src, offset, to);
  }

  lemma ClipBefore(s: seq<byte>, offset: nat, len: nat)
    requires |s| <= offset
    ensures Clip(s, offset, len) == []
  {
  }

  lemma ClipUpTo(s: seq<byte>, offset: nat, len: nat, to: nat)
    requires offset <= |s| && to == Min(|s|, offset + len)
    ensures Clip(s, offset, len) == s[offset..to]
  {
  }

  lemma SliceOfFirst(a: seq<byte>, b: seq<byte>, from: nat, to: nat)
    requires from <= to <= |a|
    ensures (a + b)[from..to] == a[from..to]
  {
  }

  lemma SliceOfSecond(a: seq<byte>, b: seq<byte>, from: nat, to: nat)
    requires |a| <= from <= to <= |a| + |b|
    ensures (a + b)[from..to] == b[from - |a|..to - |a|]
  {
  }

  lemma SliceOfBoth(a: seq<byte>, b: seq<byte>, from: nat, to: nat)
    requires from <= |a| <= to <= |a| + |b|
    ensures (a + b)[from..to] == a[from..|a|] + b[0..to - |a|]
  {
  }

  lemma ClipInside(s: seq<byte>, offset: nat, len: nat)
    requires offset + len <= |s|
    ensures Clip(s, offset, len) == s[offset..offset + len]
  {
  }

  lemma ClipLength(s: seq<byte>, offset: nat, len: nat)
    requires offset + len > |s|
    ensures |Clip(s, offset, len)| == len <==> len == 0
  {
  }

  lemma ClipOfLongStream(s: seq<byte>, msg: seq<byte>, offset: nat, len: nat)
    requires s <= msg && (s == msg || |s| >= offset + len)
    ensures |Clip(s, offset, len)| == len <==> offset + len <= |msg| || len == 0
    ensures offset + len <= |msg| ==> Clip(s, offset, len) == msg[offset..offset + len]
  {
    assert |s| <= |msg| && msg[0..|s|] == s;
    if offset + len <= |msg| {
      ClipInside(s, offset, len);
      SliceOfSlice(msg, 0, s, offset, len);
    } else {
      ClipLength(s, offset, len);
    }
  }

  class LogEncoder {
    const sizeOnly: bool
    const buf: array<byte>
    const at: nat
    const offset: nat
    const bufLen: nat
    var encodedSize: nat
    var bytesWritten: nat
    var shouldStop: bool
    /** All bytes that were encoded, and the buffer as it was. */
    ghost var stream: seq<byte>
    ghost const was: seq<byte>

    constructor SizeOnly()
      ensures Valid() && sizeOnly && stream == [] && fresh(buf)
    {
      sizeOnly, buf, at, offset, bufLen := true, new byte[0], 0, 0, 0;
      encodedSize, bytesWritten, shouldStop, stream, was := 0, 0, false, [], [];
    }

    constructor (offset: nat, buf: array<byte>, at: nat, bufLen: nat)
      requires at + bufLen <= buf.Length
      ensures Valid() && !sizeOnly && stream == []
      ensures this.buf == buf && this.at == at && this.offset == offset && this.bufLen == bufLen && was == buf[..]
    {
      sizeOnly, this.buf, this.at, this.offset, this.bufLen := false, buf, at, offset, bufLen;
      encodedSize, bytesWritten, shouldStop, stream, was := 0, 0, false, [], buf[..];
      new;
      SpliceNothing(was, at);
    }

    ghost predicate Valid()
      reads this, buf
    {
      && encodedSize == |stream| && at + bufLen <= buf.Length == |was|
      && bytesWritten == (if sizeOnly then 0 else |Clip(stream, offset, bufLen)|)
      && buf[..] == (if sizeOnly then was else Splice(was, at, Clip(stream, offset, bufLen)))
      && (shouldStop ==> !sizeOnly && |stream| >= offset + bufLen)
    }

    /** Copies the part of `src` that falls into the window. */
    method Callback(srcOffset: nat, src: seq<byte>)
      requires Valid() && !sizeOnly && srcOffset == |stream|
      modifies this`bytesWritten, this`shouldStop, this`encodedSize, this`stream, buf
      ensures Valid() && stream == old(stream) + src
    {
      hide Splice, Clip;
      ghost var s := stream;
      stream := stream + src;
      encodedSize := encodedSize + |src|;
      var destEnd := offset + bufLen;
      if srcOffset > destEnd {
        ClipStays(s, src, offset, bufLen);
        shouldStop := true;
        return;
      }
      var from, to := Max(srcOffset, offset), Min(srcOffset + |src|, destEnd);
      if to <= from {
        NoIntersection(s, src, offset, bufLen);
        return;
      }
      ghost var before := Clip(s, offset, bufLen);
      if |s| < offset {
        ClipStarts(s, src, offset, bufLen, to);
        assert [] + src[from - srcOffset..to - srcOffset] == src[from - srcOffset..to - srcOffset];
      } else {
        ClipGoesOn(s, src, offset, bufLen, to);
      }
      CopyInto(buf, at + (from - offset), src[from - srcOffset..to - srcOffset]);
      SpliceTwice(was, at, before, src[from - srcOffset..to - srcOffset]);
      bytesWritten := bytesWritten + (to - from);
    }

    method Add(src: seq<byte>)
      requires Valid() && |stream| + |src| < UINT32_LIMIT
      modifies this`bytesWritten, this`shouldStop, this`encodedSize, this`stream, buf
      ensures Valid() && stream == old(stream) + src
    {
      if |src| == 0 {
        return;
      }
      if sizeOnly {
        encodedSize := encodedSize + |src|;
        stream := stream + src;
        return;
      }
      Callback(encodedSize, src);
    }

    /** Encodes the first of the items that are left to make up `msg`. */
    method EncodeItem(item: Cbor.Item, ghost left: seq<Cbor.Item>, ghost msg: seq<byte>)
      requires Valid() && left != [] && left[0] == item
      requires stream + Cbor.EncodeAll(left) == msg && |msg| < UINT32_LIMIT
      modifies this`bytesWritten, this`shouldStop, this`encodedSize, this`stream, buf
      ensures Valid() && stream + Cbor.EncodeAll(left[1..]) == msg
    {
      hide Cbor.Head, Splice, Clip;
      ghost var before, rest := stream, Cbor.EncodeAll(left[1..]);
      Regroup(stream, Cbor.Encode(item), rest);
      match item {
        case TextString(data) =>
          Regroup(stream, Cbor.Head(Cbor.TEXT_STRING, |data|), data);
          Add(Cbor.Head(Cbor.TEXT_STRING, |data|));
          Add(data);
        case ByteString(data) =>
          Regroup(stream, Cbor.Head(Cbor.BYTE_STRING, |data|), data);
          Add(Cbor.Head(Cbor.BYTE_STRING, |data|));
          Add(data);
        case _ => Add(Cbor.Encode(item));
      }
      assert stream == before + Cbor.Encode(item);
    }
  }

  // ---- The data source ----

  lemma PiecesOfPart(s: seq<byte>, offset: nat, part: seq<byte>, first: nat)
    requires offset + |part| <= |s| && s[offset..offset + |part|] == part
    ensures Pieces(s, offset, |part|, first) == Pieces(part, 0, |part|, first)
  {
    if first < |part| {
      SliceOfSlice(s, offset, part, 0, first);
      SliceOfSlice(s, offset, part, first, |part| - first);
    }
    assert part[0..|part|] == part;
  }

  class LogSource {
    const logger: Logger
    var numLogs: nat
    /** The first items of the message, made from the time of the trigger. */
    var metadata: seq<Cbor.Item>

    constructor (logger: Logger)
      ensures this.logger == logger && numLogs == 0 && metadata == []
    {
      this.logger, numLogs, metadata := logger, 0, [];
    }

    ghost function Ring(): LogUpload.Ring
      reads logger, logger.ring
    {
      LogUpload.Ring(logger.ring.readOffset, logger.Capacity())
    }

    /** The message as it would be encoded now. */
    ghost function Current(): seq<byte>
      reads this, logger, logger.ring
    {
      Message(metadata, logger.entries, numLogs, Ring())
    }

    method CountUnsent() returns (n: nat)
      requires logger.Valid()
      ensures n == Unsent(logger.entries)
    {
      hide Logger.Valid, TotalSize;
      n := 0;
      var offset := 0;
      ghost var k := 0;
      assert logger.entries[..0] == [];
      EmptyTotal();
      assert logger.entries[0..] == logger.entries;
      while true
        invariant k <= |logger.entries| && offset == TotalSize(logger.entries[..k])
        invariant n + Unsent(logger.entries[k..]) == Unsent(logger.entries)
        decreases |logger.entries| - k
      {
        var found, hdr, len := logger.EntryBehind(offset, k);
        if !found {
          break;
        }
        NextEntry(logger.entries, k);
        if hdr % 0x80 < 0x40 {
          n := n + 1;
        }
        offset := offset + ENTRY_HEADER + len as nat;
        k := k + 1;
      }
    }

    /** Freezes the logs that were not sent yet for an upload. */
    method TriggerCollection(time: seq<Cbor.Item>)
      requires logger.Valid()
      modifies this, logger`collecting
      ensures logger.Valid()
      ensures old(logger.collecting) || Unsent(logger.entries) == 0 ==>
                logger.State() == old(logger.State()) && numLogs == old(numLogs) && metadata == old(metadata)
      ensures !old(logger.collecting) && Unsent(logger.entries) > 0 ==>
                && logger.State() == old(logger.State()).(collecting := true)
                && numLogs == Unsent(logger.entries) && metadata == time
    {
      if logger.collecting {
        return;
      }
      var n := CountUnsent();
      if n == 0 {
        return;
      }
      logger.collecting := true;
      metadata := time;
      numLogs := n;
    }

    /** Encodes one piece of a message as a log of its own; fails if it is too short for the timestamp. */
    method SerializePiece(enc: LogEncoder, hdr: byte, piece: seq<byte>, ghost e: Entry, ghost tail: seq<Cbor.Item>,
                          ghost msg: seq<byte>)
      returns (ok: bool)
      requires enc.Valid() && e.hdr == hdr && |msg| < UINT32_LIMIT
      requires HoldsTimestamp(e, piece) ==> enc.stream + Cbor.EncodeAll(Elements(e, piece) + tail) == msg
      modifies enc`bytesWritten, enc`shouldStop, enc`encodedSize, enc`stream, enc.buf
      ensures enc.Valid() && ok == HoldsTimestamp(e, piece)
      ensures if ok then enc.stream + Cbor.EncodeAll(tail) == msg else enc.stream == old(enc.stream)
    {
      var timestamp, text := 0, piece;
      if hdr % 0x20 >= 0x10 {
        if |piece| < 4 {
          return false;
        }
        timestamp := FromWord(piece[..4]);
        text := piece[4..];
      }
      ghost var left := Elements(e, piece) + tail;
      LeftAfter(Elements(e, piece), tail);
      hide FromWord, Elements, LogEncoder.Valid, Cbor.EncodeAll;
      enc.EncodeItem(Cbor.Integer(timestamp), left, msg);
      enc.EncodeItem(Cbor.Integer((hdr % 0x08) as nat), left[1..], msg);
      if hdr % 0x10 < 0x08 {
        enc.EncodeItem(Cbor.TextString(text), left[1..][1..], msg);
      } else {
        enc.EncodeItem(Cbor.ByteString(text), left[1..][1..], msg);
      }
      ok := true;
    }

    /** Encodes the log that is entry `k`, which lies at `offset`. */
    method SerializeEntry(enc: LogEncoder, offset: nat, hdr: byte, len: byte, ghost k: nat,
                          ghost tail: seq<Cbor.Item>, ghost msg: seq<byte>)
      requires logger.Valid() && enc.Valid() && enc.buf != logger.ring.storage && |msg| < UINT32_LIMIT
      requires k < |logger.entries| && offset == TotalSize(logger.entries[..k])
      requires hdr == logger.entries[k].hdr && len as nat == |logger.entries[k].msg|
      requires enc.stream + Cbor.EncodeAll(ElementsOf(logger.entries[k], offset, Ring()) + tail) == msg
      modifies enc`bytesWritten, enc`shouldStop, enc`encodedSize, enc`stream, enc.buf
      ensures enc.Valid() && enc.stream + Cbor.EncodeAll(tail) == msg
    {
      hide CircularBuffer.Contents, Layout, TotalSize, Cbor.EncodeAll, LogEncoder.Valid, Elements, Pieces;
      ghost var e := logger.entries[k];
      EntryAt(logger.entries, k);
      PiecesOfPart(logger.ring.Contents(), offset + ENTRY_HEADER, e.msg,
                   InOnePiece(Ring(), offset + ENTRY_HEADER));
      var found, pieces := logger.ring.ReadWithCallback(offset + ENTRY_HEADER, len as nat);
      var i := 0;
      while i < |pieces|
        invariant i <= |pieces| && enc.Valid()
        invariant enc.stream + Cbor.EncodeAll(ElementsOfPieces(e, pieces[i..]) + tail) == msg
      {
        NextPiece(e, pieces, i, tail);
        var ok := SerializePiece(enc, hdr, pieces[i], e, ElementsOfPieces(e, pieces[i + 1..]) + tail, msg);
        if !ok {
          return;
        }
        i := i + 1;
      }
      assert [] + tail == tail;
    }

    /** Encodes the message, at least as far as the encoder has use for it. */
    method Encode(enc: LogEncoder)
      requires logger.Valid() && enc.Valid() && enc.buf != logger.ring.storage
      requires enc.stream == [] && |Current()| < UINT32_LIMIT
      modifies enc`bytesWritten, enc`shouldStop, enc`encodedSize, enc`stream, enc.buf
      ensures enc.Valid() && enc.stream <= Current() && (enc.stream == Current() || enc.shouldStop)
    {
      hide Logger.Valid, Cbor.EncodeAll, LogEncoder.Valid, TotalSize;
      ghost var msg, logs := Current(), LogElements(logger.entries, 0, numLogs, Ring());
      ghost var items := MessageItems(metadata, logger.entries, numLogs, Ring());
      var i := 0;
      while i < |metadata|
        invariant i <= |metadata| && enc.Valid() && enc.stream + Cbor.EncodeAll(items[i..]) == msg
      {
        enc.EncodeItem(metadata[i], items[i..], msg);
        i := i + 1;
      }
      enc.EncodeItem(Cbor.Integer(EVENT_INFO_KEY), items[i..], msg);
      enc.EncodeItem(Cbor.ArrayOf(ELEMENTS_PER_LOG * numLogs), items[i + 1..], msg);
      EncodeLogs(enc, msg);
    }

    method EncodeLogs(enc: LogEncoder, ghost msg: seq<byte>)
      requires logger.Valid() && enc.Valid() && enc.buf != logger.ring.storage && |msg| < UINT32_LIMIT
      requires enc.stream + Cbor.EncodeAll(LogElements(logger.entries, 0, numLogs, Ring())) == msg
      modifies enc`bytesWritten, enc`shouldStop, enc`encodedSize, enc`stream, enc.buf
      ensures enc.Valid() && enc.stream <= msg && (enc.stream == msg || enc.shouldStop)
    {
      hide Logger.Valid, Cbor.EncodeAll, LogEncoder.Valid, TotalSize, ElementsOf, LogElements;
      var offset, numEncoded := 0, 0;
      ghost var k, entries := 0, logger.entries;
      assert entries[..0] == [] && entries[0..] == entries;
      EmptyTotal();
      NothingLeft();
      while true
        invariant k <= |entries| && offset == TotalSize(entries[..k]) && logger.Valid() && enc.Valid()
        invariant enc.stream + Cbor.EncodeAll(LogElements(entries[k..], offset, numLogs - numEncoded, Ring())) == msg
        decreases |entries| - k
      {
        var found, hdr, len := logger.EntryBehind(offset, k);
        NextLog(entries, k, offset, numLogs - numEncoded, Ring());
        if !found || enc.shouldStop {
          break;
        }
        if hdr % 0x80 < 0x40 {
          ghost var tail := if numLogs - numEncoded == 1 then []
                            else LogElements(entries[k + 1..], offset + Size(entries[k]), numLogs - numEncoded - 1, Ring());
          SerializeEntry(enc, offset, hdr, len, k, tail, msg);
          assert enc.stream + Cbor.EncodeAll(tail) == msg;
          numEncoded := numEncoded + 1;
          if numEncoded == numLogs {
            break;
          }
        }
        offset := offset + ENTRY_HEADER + len as nat;
        k := k + 1;
      }
    }

    /** Whether there is a message, and its size. */
    method HasLogs() returns (has: bool, totalSize: nat)
      requires logger.Valid() && |Current()| < UINT32_LIMIT
      ensures has == logger.collecting && (has ==> totalSize == |Current()|)
    {
      hide Logger.Valid, Message;
      if !logger.collecting {
        return false, 0;
      }
      var enc := new LogEncoder.SizeOnly();
      Encode(enc);
      return true, enc.encodedSize;
    }

    /** Copies `len` bytes of the message, from `offset` on, to `buf` at index `at`. */
    method ReadMsg(offset: nat, buf: array<byte>, at: nat, len: nat) returns (ok: bool)
      requires logger.Valid() && |Current()| < UINT32_LIMIT
      requires at + len <= buf.Length && buf != logger.ring.storage
      modifies buf
      ensures ok <==> offset + len <= |Current()| || len == 0
      ensures offset + len <= |Current()| ==> buf[..] == Splice(old(buf[..]), at, Current()[offset..offset + len])
    {
      hide Logger.Valid, Message, Splice, Clip;
      var enc := new LogEncoder(offset, buf, at, len);
      Encode(enc);
      ClipOfLongStream(enc.stream, Current(), offset, len);
      ok := len == enc.bytesWritten;
    }

    /** Marks the logs that were uploaded and lifts the freeze. */
    method MarkSent()
      requires logger.Valid()
      modifies this, logger`entries, logger`collecting, logger.ring`readSize, logger.ring.storage
      ensures logger.Valid() && numLogs == 0 && metadata == []
      ensures logger.State() == old(logger.State()).(entries := MarkFirst(old(logger.entries), old(numLogs)),
                                                     collecting := false)
    {
      hide Logger.Valid, TotalSize, LogQueue.MarkSent, Marked, IsSent, MarkFirst, Layout, CircularBuffer.Contents;
      var offset, numMarked := 0, 0;
      ghost var k, was := 0, logger.entries;
      assert was[..0] == [];
      EmptyTotal();
      NothingMarked(was, numLogs);
      while true
        invariant k <= |logger.entries| == |was| && offset == TotalSize(logger.entries[..k]) && logger.Valid()
        invariant unchanged(this) && unchanged(logger`collecting)
        invariant Marked(logger.entries, was, k, numLogs - numMarked, MarkFirst(was, numLogs))
        decreases |was| - k
      {
        var found, hdr, len := logger.EntryBehind(offset, k);
        MarkedNext(logger.entries, was, k, numLogs - numMarked, MarkFirst(was, numLogs));
        if !found {
          break;
        }
        SentMark(logger.entries[k]);
        if hdr % 0x80 < 0x40 {
          MarkedSize(logger.entries, k, LogQueue.MarkSent(logger.entries[k]));
          var _ := logger.UpdateEntry(offset, hdr + 0x40, len, k);
          numMarked := numMarked + 1;
          if numMarked == numLogs {
            break;
          }
        }
        offset := offset + ENTRY_HEADER + len as nat;
        k := k + 1;
      }
      logger.collecting := false;
      numLogs, metadata := 0, [];
    }
  }

  /** Of `was`, the first `k` entries are marked, and marking `n` of the others makes it `result`. */
  ghost predicate Marked(now: seq<Entry>, was: seq<Entry>, k: nat, n: int, result: seq<Entry>) {
    && k <= |now| == |was| && now[k..] == was[k..]
    && now[..k] + MarkFirst(was[k..], n) == result
  }

  lemma NothingMarked(was: seq<Entry>, n: int)
    ensures Marked(was, was, 0, n, MarkFirst(was, n))
  {
    assert was[..0] == [] && was[0..] == was;
    assert [] + MarkFirst(was, n) == MarkFirst(was, n);
  }

  lemma MarkedNext(now: seq<Entry>, was: seq<Entry>, k: nat, n: int, result: seq<Entry>)
    requires Marked(now, was, k, n, result)
    ensures k == |was| ==> now == result
    ensures k < |was| && IsSent(now[k]) ==> Marked(now, was, k + 1, n, result)
    ensures k < |was| && !IsSent(now[k]) ==>
              var marked := now[k := LogQueue.MarkSent(now[k])];
              if n == 1 then marked == result else Marked(marked, was, k + 1, n - 1, result)
  {
    hide LogQueue.MarkSent, IsSent;
    if k == |was| {
      assert now[..k] + [] == now;
    } else {
      var e := now[k];
      NextEntry(was, k);
      NextEntry(now, k);
      MarkAndShift(now, was, k, e);
      MarkAndShift(now, was, k, LogQueue.MarkSent(e));
      if IsSent(e) {
        Regroup(now[..k], [e], MarkFirst(was[k + 1..], n));
      } else if n == 1 {
        Regroup(now[..k], [LogQueue.MarkSent(e)], was[k + 1..]);
      } else {
        Regroup(now[..k], [LogQueue.MarkSent(e)], MarkFirst(was[k + 1..], n - 1));
      }
    }
  }

  lemma MarkAndShift(now: seq<Entry>, was: seq<Entry>, k: nat, e: Entry)
    requires k < |now| == |was| && now[k..] == was[k..]
    ensures var marked := now[k := e];
            && marked[..k + 1] == now[..k] + [e] && marked[k + 1..] == was[k + 1..]
            && marked == marked[..k + 1] + marked[k + 1..] && now[k := now[k]] == now
  {
    assert now[k + 1..] == now[k..][1..] == was[k..][1..] == was[k + 1..];
  }

  lemma SentMark(e: Entry)
    ensures e.hdr % 0x80 < 0x40 <==> !IsSent(e)
    ensures !IsSent(e) ==> e.hdr as nat + 0x40 < 0x100 && LogQueue.MarkSent(e) == e.(hdr := e.hdr + 0x40)
  {
  }

  lemma MarkedSize(entries: seq<Entry>, k: nat, e: Entry)
    requires k < |entries|
    ensures TotalSize(entries[k := e][..k + 1]) == TotalSize(entries[..k]) + Size(e)
  {
    hide TotalSize;
    var marked := entries[k := e];
    TakeOneMore(marked, k);
    assert marked[..k] == entries[..k];
    PushTotal(marked[..k], e);
  }

  /** The piece holds a whole timestamp if there is to be one. */
  predicate HoldsTimestamp(e: Entry, piece: seq<byte>) {
    IsTimestamped(e) ==> |piece| >= 4
  }

  lemma LeftAfter(items: seq<Cbor.Item>, tail: seq<Cbor.Item>)
    requires |items| == 3
    ensures var left := items + tail;
            && left[0] == items[0] && left[1..][0] == items[1] && left[1..][1..][0] == items[2]
            && left[1..][1..][1..] == tail
  {
  }

  lemma NextPiece(e: Entry, pieces: seq<seq<byte>>, i: nat, tail: seq<Cbor.Item>)
    requires i < |pieces|
    ensures var rest := ElementsOfPieces(e, pieces[i + 1..]);
            ElementsOfPieces(e, pieces[i..]) + tail ==
            if HoldsTimestamp(e, pieces[i]) then Elements(e, pieces[i]) + (rest + tail) else tail
  {
    hide Elements;
    assert pieces[i..][1..] == pieces[i + 1..];
  }

  lemma NothingLeft()
    ensures Cbor.EncodeAll([]) == []
  {
  }

  /** The elements from entry `k` on. */
  lemma NextLog(entries: seq<Entry>, k: nat, at: nat, n: int, ring: LogUpload.Ring)
    requires k <= |entries|
    ensures LogElements(entries[k..], at, n, ring) ==
            if k == |entries| then []
            else if IsSent(entries[k]) then LogElements(entries[k + 1..], at + Size(entries[k]), n, ring)
            else ElementsOf(entries[k], at, ring) +
                 if n == 1 then [] else LogElements(entries[k + 1..], at + Size(entries[k]), n - 1, ring)
  {
    hide ElementsOf;
    if k < |entries| {
      NextEntry(entries, k);
    }
  }

  lemma NextEntry(entries: seq<Entry>, k: nat)
    requires k < |entries|
    ensures entries[k..][0] == entries[k] && entries[k..][1..] == entries[k + 1..]
  {
  }
}
