/** The packetizer: picks the next message, sends it chunk by chunk, and deletes it once it is sent
  * (components/core/src/memfault_data_packetizer.c), and the loop that drains it
  * (components/core/src/memfault_data_export.c). */
module Packetizer {
  import opened Bytes
  import DataSource
  import DataSourceRle
  import RleSpec
  import opened MessageReader
  import opened Chunking
  import ChunkTransport
  import P = PacketizerSpec

  class Packetizer {
    /** One source for each type of message, in order of priority. */
    const sources: seq<DataSource.Source>
    const rle: DataSourceRle.RleSource
    const reader: Reader
    var activeSources: set<nat>
    var activeMessage: bool
    /** The index of the source of the active message. */
    var sourceIndex: nat
    const ctx: ChunkTransport.Context

    constructor ()
      ensures |sources| == P.NUM_SOURCES && State() == P.State([[], [], [], []], {0, 1, 2, 3}, None)
      ensures Valid()
      ensures fresh(ctx) && fresh(reader) && fresh(rle) && fresh(rle.rle) && fresh(rle.tempBuf)
      ensures forall i :: 0 <= i < |sources| ==> fresh(sources[i])
    {
      hide Loaded, P.Valid, DataSourceRle.RleSource.Valid;
      P.EmptyIsValid({0, 1, 2, 3});
      var coredumps := new DataSource.Source();
      var events := new DataSource.Source();
      var logs := new DataSource.Source();
      var recordings := new DataSource.Source();
      sources := [coredumps, events, logs, recordings];
      var encoder := new DataSourceRle.RleSource();
      rle := encoder;
      reader := new Reader(encoder, coredumps);
      ctx := new ChunkTransport.Context();
      activeSources, activeMessage, sourceIndex := {0, 1, 2, 3}, false, 0;
    }

    ghost predicate Separate()
      reads this
    {
      && |sources| == P.NUM_SOURCES
      && (forall i, j :: 0 <= i < j < |sources| ==> sources[i] != sources[j])
      && reader.rle == rle
    }

    ghost function Queues(): P.Queues
      requires |sources| == P.NUM_SOURCES
      reads this, sources
    {
      var queues := [sources[0].queue, sources[1].queue, sources[2].queue, sources[3].queue];
      assert |queues| == P.NUM_SOURCES;
      queues
    }

    /** The state as the specification sees it. */
    ghost function State(): P.State
      requires |sources| == P.NUM_SOURCES
      reads this, sources, ctx
    {
      P.State(Queues(), activeSources,
              if activeMessage then Some(P.Active(sourceIndex, ctx.readOffset, ctx.enableMultiCall)) else None)
    }

    ghost predicate Valid()
      reads this, sources, ctx, reader, reader.source, rle, rle.rle, if rle.active == null then {} else {rle.active}
    {
      && Separate()
      && P.Valid(State())
      && rle.Valid() && (rle.active == null || rle.active == sources[0])
      && (activeMessage ==> Loaded())
      && (!(activeMessage && P.UsesRle(sourceIndex)) ==> rle.currEncodedLen == 0)
    }

    /** The reader and the chunk transport are set up for the active message. */
    ghost predicate Loaded()
      requires Separate()
      reads this, sources, ctx, reader, reader.source, rle, rle.rle
    {
      && sourceIndex < P.NUM_SOURCES && reader.source == sources[sourceIndex]
      && reader.msgType == P.TypeOf(sourceIndex) && reader.useRle == P.UsesRle(sourceIndex)
      && reader.source.queue != []
      && reader.At(reader.source.queue[0], ctx.readOffset)
      && ctx.Sending(P.Wire(sourceIndex, reader.source.queue[0]))
      && ctx.singleChunkMessageLength == ctx.totalSize + 1 + CRC_LENGTH
    }

    /** Asks one source for data, through the run-length encoder where it is used. */
    method HasData(i: nat) returns (has: bool, size: nat)
      requires Valid() && !activeMessage && i < P.NUM_SOURCES
      modifies rle, rle.rle, rle.tempBuf
      ensures Valid()
      ensures has == (sources[i].queue != [])
      ensures has ==> size == |P.Wire(i, sources[i].queue[0])| - HEADER_SIZE
      ensures has && P.UsesRle(i) ==> rle.active == sources[i] && rle.Reading(sources[i].queue[0])
    {
      hide RleSpec.Encode, DataSourceRle.RleSource.Reading, DataSourceRle.RleSource.IsClear;
      if P.UsesRle(i) {
        assert sources[i].queue != [] ==> P.Sendable(State().queues[i][0]);
        rle.SetActive(sources[i]);
        has, size := rle.HasMoreMsgs();
      } else {
        has, size := sources[i].HasMoreMsgs();
      }
    }

    /** Finds the first active source that has a message. */
    method GetSourceWithData() returns (found: bool, totalSize: nat, index: nat)
      requires Valid() && !activeMessage
      modifies rle, rle.rle, rle.tempBuf
      ensures Valid() && State() == old(State())
      ensures found == P.SourceWithData(State(), 0).Some?
      ensures found ==>
                && Some(index) == P.SourceWithData(State(), 0)
                && totalSize == |P.Wire(index, sources[index].queue[0])| - HEADER_SIZE
                && (P.UsesRle(index) ==> rle.active == sources[index] && rle.Reading(sources[index].queue[0]))
    {
      hide Valid, P.Wire, DataSourceRle.RleSource.Reading;
      SourcesAreSeparate();
      found, totalSize, index := false, 0, 0;
      var i := 0;
      while i < |sources|
        invariant 0 <= i <= |sources| == P.NUM_SOURCES
        invariant Valid() && !activeMessage && State() == old(State())
        invariant P.SourceWithData(State(), 0) == P.SourceWithData(State(), i)
      {
        if i in activeSources {
          var has, size := HasData(i);
          if has {
            return true, size, i;
          }
        }
        i := i + 1;
      }
    }

    lemma SourcesAreSeparate()
      requires Valid()
      ensures Separate() && P.Valid(State())
    {
    }

    /** Sets everything up for the message that is next in source `i`. */
    method Load(i: nat, totalSize: nat, enableMultiCall: bool)
      requires Valid() && !activeMessage
      requires Some(i) == P.SourceWithData(State(), 0)
      requires totalSize == |P.Wire(i, sources[i].queue[0])| - HEADER_SIZE
      requires P.UsesRle(i) ==> rle.active == sources[i] && rle.Reading(sources[i].queue[0])
      modifies this, ctx, reader
      ensures Valid() && State() == P.Begin(old(State()), enableMultiCall) && activeMessage
    {
      hide RleSpec.Encode, DataSourceRle.RleSource.Reading, DataSourceRle.RleSource.IsClear, P.SourceWithData;
      hide ChunkTransport.Context.Sending, DataSourceRle.RleSource.Valid, P.Valid, Framed;
      ghost var s, stored := State(), sources[i].queue[0];
      P.NextIsSendable(s, i);
      P.WireLength(i, stored);
      activeMessage, sourceIndex := true, i;
      reader.source, reader.msgType, reader.useRle := sources[i], P.TypeOf(i), P.UsesRle(i);
      ctx.Reset(totalSize + HEADER_SIZE, enableMultiCall, P.Wire(i, stored));
      ctx.GetChunkInfo(P.Wire(i, stored));
      assert State() == P.Begin(s, enableMultiCall);
      P.BeginIsValid(s, enableMultiCall);
      assert Loaded();
    }

    /** Loads a message, unless one is being sent already, and tells how long its single chunk is. */
    method Begin(enableMultiCall: bool) returns (ok: bool, singleChunkMessageLength: nat, sendInProgress: bool)
      requires Valid()
      modifies this, ctx, reader, rle, rle.rle, rle.tempBuf
      ensures Valid() && State() == P.Begin(old(State()), enableMultiCall)
      ensures ok == State().active.Some?
      ensures ok ==>
                && singleChunkMessageLength == |SingleChunk(P.Sent(State()))|
                && sendInProgress == (State().active.value.offset != 0)
    {
      hide P.Wire, P.SourceWithData, P.Valid;
      if !activeMessage {
        var found, totalSize, index := GetSourceWithData();
        if !found {
          return false, 0, false;
        }
        Load(index, totalSize, enableMultiCall);
      }
      ok, singleChunkMessageLength, sendInProgress := true, ctx.singleChunkMessageLength, ctx.readOffset != 0;
    }

    /** Forgets the message being sent; it is not deleted. */
    method Abort()
      requires Valid()
      modifies `activeMessage, rle, rle.rle
      ensures Valid() && State() == P.Abort(old(State()))
    {
      activeMessage := false;
      rle.SetActive(null);
    }

    /** Aborts, and selects the sources: from now on the next message is that of the first source that is in
      * the mask and has one. */
    method SetActiveSources(mask: set<nat>)
      requires Valid()
      modifies `activeMessage, `activeSources, rle, rle.rle
      ensures Valid() && State() == P.SetActiveSources(old(State()), mask)
      ensures !activeMessage && Queues() == old(Queues())
      ensures forall i :: 0 <= i < P.NUM_SOURCES ==>
                (P.SourceWithData(State(), 0) == Some(i) <==>
                 i in mask && Queues()[i] != [] && forall j :: 0 <= j < i ==> j !in mask || Queues()[j] == [])
    {
      hide P.Wire;
      Abort();
      activeSources := mask;
      P.SourceIsFirst(State());
    }

    method DataAvailable() returns (available: bool)
      requires Valid()
      modifies rle, rle.rle, rle.tempBuf
      ensures Valid() && State() == old(State())
      ensures available == (State().active.Some? || P.SourceWithData(State(), 0).Some?)
    {
      hide P.Wire, P.SourceWithData, P.Valid;
      if activeMessage {
        return true;
      }
      var totalSize, index;
      available, totalSize, index := GetSourceWithData();
    }

    /** Deletes the message that has been sent. */
    method MarkMessageSent()
      requires Valid() && activeMessage
      requires sourceIndex < P.NUM_SOURCES && sources[sourceIndex].queue != []
      modifies `activeMessage, rle, rle.rle, sources
      ensures Valid()
      ensures State() == old(var s := State(); s.(queues := s.queues[sourceIndex := s.queues[sourceIndex][1..]], active := None))
    {
      hide P.Wire, P.Valid, DataSourceRle.RleSource.Reading, DataSourceRle.RleSource.IsClear;
      ghost var s, k := State(), sourceIndex;
      P.PopIsValid(s, k);
      if reader.useRle {
        rle.MarkMsgRead();
      } else {
        reader.source.MarkMsgRead();
      }
      activeMessage := false;
      rle.SetActive(null);
      assert State() == s.(queues := s.queues[k := s.queues[k][1..]], active := None);
    }

    /** Sends the next chunk, or part of it, of the active message. */
    method SendChunk(buf: array<byte>, bufLen: nat) returns (outLen: nat, moreData: bool)
      requires Valid() && activeMessage && bufLen <= buf.Length && buf != rle.tempBuf
      modifies ctx, rle, rle.rle, rle.tempBuf, buf
      ensures Valid() && activeMessage
      ensures bufLen < MIN_CHUNK_BUF_LEN ==> outLen == 0 && State() == old(State())
      ensures bufLen >= MIN_CHUNK_BUF_LEN ==>
                var s := old(State());
                var a := s.active.value;
                |P.Sent(s)| + 3 < UINT32_LIMIT &&
                var c := NextChunk(P.Sent(s), a.offset, bufLen, a.multiCall);
                && outLen == |c.bytes| <= buf.Length && buf[..outLen] == c.bytes && moreData == c.more
                && State() == s.(active := Some(a.(offset := a.offset + c.taken)))
    {
      hide Framed, DataSourceRle.RleSource.Reading, DataSourceRle.RleSource.IsClear, NextChunk;
      ghost var s, stored := State(), reader.source.queue[0];
      P.WireLength(sourceIndex, stored);
      outLen, moreData := ctx.GetNextChunk(reader, buf, bufLen, stored);
    }

    /** Fills `buf` with the next bytes of the active message; the message is deleted when it is sent
      * completely. */
    method GetNext(buf: array<byte>, bufLen: nat) returns (status: P.Status, outLen: nat)
      requires Valid() && bufLen <= buf.Length && buf != rle.tempBuf
      modifies `activeMessage, ctx, rle, rle.rle, rle.tempBuf, sources, buf
      ensures Valid()
      ensures var r := P.GetNext(old(State()), bufLen);
              State() == r.state && status == r.status && outLen == |r.bytes| <= buf.Length && buf[..outLen] == r.bytes
    {
      hide P.Wire, NextChunk, Loaded;
      if !activeMessage {
        return P.NoMoreData, 0;
      }
      ghost var s := State();
      var md;
      outLen, md := SendChunk(buf, bufLen);
      if bufLen >= MIN_CHUNK_BUF_LEN {
        NextChunkMakesProgress(P.Sent(s), s.active.value.offset, bufLen, s.active.value.multiCall);
      }
      if outLen == 0 {
        return P.NoMoreData, outLen;
      }
      if !md {
        MarkMessageSent();
        return P.EndOfChunk, outLen;
      }
      status := if ctx.enableMultiCall then P.MoreDataForChunk else P.EndOfChunk;
    }

    /** Loads a message if necessary and sends its next chunk. */
    method GetChunk(buf: array<byte>, bufLen: nat) returns (ok: bool, outLen: nat)
      requires Valid() && bufLen <= buf.Length && buf != rle.tempBuf
      modifies this, ctx, reader, rle, rle.rle, rle.tempBuf, sources, buf
      ensures Valid()
      ensures var r := P.GetChunk(old(State()), bufLen);
              && State() == r.state && ok == (r.status == P.EndOfChunk)
              && (ok ==> outLen == |r.bytes| <= buf.Length && buf[..outLen] == r.bytes)
    {
      hide Valid, P.Begin, NextChunk;
      var available, length, inProgress := Begin(false);
      if !available {
        return false, 0;
      }
      var status;
      status, outLen := GetNext(buf, bufLen);
      ok := status == P.EndOfChunk;
    }

    /** Sends chunks until there are none left; returns them in order. */
    method DumpChunks(buf: array<byte>) returns (exported: seq<seq<byte>>)
      requires Valid() && buf != rle.tempBuf
      modifies this, ctx, reader, rle, rle.rle, rle.tempBuf, sources, buf
      ensures Valid()
      ensures var d := P.Drain(old(State()), buf.Length);
              State() == d.state && exported == d.chunks
    {
      hide Valid, P.Valid, P.GetChunk, Queues;
      SourcesAreSeparate();
      exported := [];
      ghost var s := State();
      var more := true;
      while more
        invariant Valid() && |sources| == P.NUM_SOURCES && P.Valid(State())
        invariant var d := P.Drain(s, buf.Length);
                  if more then
                    var e := P.Drain(State(), buf.Length);
                    d.state == e.state && d.chunks == exported + e.chunks
                  else
                    State() == d.state && exported == d.chunks
        decreases more, P.StoredMessages(State()), P.BytesLeft(State())
      {
        if P.GetChunk(State(), buf.Length).status == P.EndOfChunk {
          P.GetChunkMakesProgress(State(), buf.Length);
        }
        var outLen;
        more, outLen := GetChunk(buf, buf.Length);
        SourcesAreSeparate();
        if more {
          exported := exported + [buf[..outLen]];
        }
      }
    }

    /** A producer stores another message, at any time. */
    method Store(i: nat, stored: seq<byte>)
      requires Valid() && i < P.NUM_SOURCES && P.Sendable(stored)
      modifies sources
      ensures Valid() && State() == P.Store(old(State()), i, stored)
    {
      hide P.Wire, DataSourceRle.RleSource.IsClear, DataSourceRle.RleSource.Reading, ChunkTransport.Context.Sending;
      ghost var s := State();
      P.StoreIsValid(s, i, stored);
      sources[i].Store(stored);
      assert State() == P.Store(s, i, stored);
    }
  }
}
