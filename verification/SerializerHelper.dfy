/** Serializes an event straight into the event store
  * (components/core/src/memfault_serializer_helper.c). A callback that encodes an event, and stops at
  * the first call of the encoder that fails, is the list of the items it encodes. */
module SerializerHelper {
  import opened Bytes
  import Cbor
  import Q = EventQueue
  import EventStorage

  lemma OneMore(items: seq<Cbor.Item>, i: nat)
    requires i < |items|
    ensures Cbor.EncodeAll(items[..i + 1]) == Cbor.EncodeAll(items[..i]) + Cbor.Encode(items[i])
  {
    hide Cbor.Encode;
    assert items[..i + 1] == items[..i] + [items[i]];
    Cbor.EncodeAllConcat(items[..i], [items[i]]);
    assert Cbor.EncodeAll([items[i]]) == Cbor.Encode(items[i]) + Cbor.EncodeAll([]);
  }

  lemma PrefixIsShorter(items: seq<Cbor.Item>, i: nat)
    requires i <= |items|
    ensures |Cbor.EncodeAll(items[..i])| <= |Cbor.EncodeAll(items)|
    ensures i == |items| ==> items[..i] == items
  {
    hide Cbor.Encode;
    assert items[..i] + items[i..] == items;
    Cbor.EncodeAllConcat(items[..i], items[i..]);
  }

  lemma NothingToEncode(items: seq<Cbor.Item>)
    ensures Cbor.EncodeAll(items) == [] <==> items == []
  {
    hide Cbor.Encode;
  }

  class Helper {
    var numStorageDrops: nat
    var lastDropCount: nat

    constructor ()
      ensures numStorageDrops == lastDropCount == 0
    {
      numStorageDrops, lastDropCount := 0, 0;
    }

    /** How large the serialized event is. */
    method ComputeSize(items: seq<Cbor.Item>) returns (size: nat)
      requires forall i :: 0 <= i < |items| ==> Cbor.Encodable(items[i])
      ensures size == |Cbor.EncodeAll(items)|
    {
      hide Cbor.Encode, Cbor.Encodable;
      var encoder := new Cbor.Encoder.SizeOnly();
      for i := 0 to |items|
        invariant encoder.Valid() && encoder.computeSizeOnly
        invariant encoder.encodedSize == |Cbor.EncodeAll(items[..i])|
      {
        OneMore(items, i);
        var ok := encoder.EncodeItem(items[i]);
      }
      PrefixIsShorter(items, |items|);
      size := encoder.Deinit();
    }

    /** Passes what the encoder has added since `from` on to the store. */
    method Flush(encoder: Cbor.Encoder, from: nat, storage: EventStorage.EventStorage)
      requires storage.Valid() && encoder.Valid() && !encoder.computeSizeOnly
      requires from <= |encoder.output|
      requires from < |encoder.output| ==> storage.state.writing == Some(encoder.output[..from])
      requires from < |encoder.output| ==>
                 |Q.Layout(storage.state)| + |encoder.output| - from <= storage.Capacity()
      modifies storage, storage.buffer, storage.buffer.storage
      ensures storage.Valid()
      ensures storage.state == if from < |encoder.output|
                               then old(storage.state).(writing := Some(encoder.output))
                               else old(storage.state)
    {
      hide Q.Layout, EventStorage.EventStorage.Valid;
      if from < |encoder.output| {
        assert encoder.output[..from] + encoder.output[from..] == encoder.output;
        var _ := storage.AppendData(encoder.output[from..]);
      }
    }

    /** Encodes the event into the store, all of it or nothing: the event is stored if its size does
      * not exceed the space there is, and otherwise the store is left as it was. */
    method EncodeToStorage(items: seq<Cbor.Item>, storage: EventStorage.EventStorage) returns (success: bool)
      requires storage.Valid() && storage.state.writing.None?
      requires forall i :: 0 <= i < |items| ==> Cbor.Encodable(items[i])
      modifies this, storage, storage.buffer, storage.buffer.storage
      ensures storage.Valid()
      ensures success <==> items == [] ||
                           |Q.Layout(old(storage.state))| + 2 + |Cbor.EncodeAll(items)| <= storage.Capacity()
      ensures success && (items != [] || |Q.Layout(old(storage.state))| + Q.HEADER_SIZE <= storage.Capacity()) ==>
                storage.state ==
                old(storage.state).(events := old(storage.state).events + [Cbor.EncodeAll(items)])
      ensures !success ==> storage.state == old(storage.state)
      ensures numStorageDrops + lastDropCount ==
              old(numStorageDrops + lastDropCount) + (if success then 0 else 1)
    {
      hide Cbor.Encode, Cbor.Encodable, Q.Records, EventStorage.EventStorage.Valid;
      ghost var before := storage.state;
      var space := storage.BeginWrite();
      ghost var begun := storage.state;
      BegunLayout(before, storage.Capacity());
      var encoder := new Cbor.Encoder(space);
      success := true;
      var i := 0;
      while i < |items|
        invariant 0 <= i <= |items|
        invariant numStorageDrops == old(numStorageDrops) && lastDropCount == old(lastDropCount)
        invariant storage.Valid() && encoder.Valid() && !encoder.computeSizeOnly && encoder.bufLen == space
        invariant success ==> encoder.output == Cbor.EncodeAll(items[..i])
        invariant !success ==> |Cbor.EncodeAll(items)| > space && i == |items|
        invariant storage.state == if begun.writing.Some? then begun.(writing := Some(encoder.output)) else before
        decreases |items| - i
      {
        ghost var done := encoder.output;
        if begun.writing.Some? {
          WritingLayout(begun, done);
        }
        OneMore(items, i);
        PrefixIsShorter(items, i + 1);
        var from := |encoder.output|;
        success := encoder.EncodeItem(items[i]);
        assert encoder.output[..from] == done;
        assert from == |encoder.output| ==> encoder.output == done;
        Flush(encoder, from, storage);
        i := if success then i + 1 else |items|;
      }
      PrefixIsShorter(items, i);
      NothingToEncode(items);
      var size := encoder.Deinit();
      storage.FinishWrite(!success);

      if !success {
        numStorageDrops := numStorageDrops + 1;
      } else if numStorageDrops != 0 {
        lastDropCount := lastDropCount + numStorageDrops;
        numStorageDrops := 0;
      }
    }

    /** How many events were dropped since the last call. */
    method ReadDropCount() returns (dropCount: nat)
      modifies this
      ensures dropCount == old(numStorageDrops + lastDropCount)
      ensures numStorageDrops == lastDropCount == 0
    {
      dropCount := lastDropCount + numStorageDrops;
      lastDropCount, numStorageDrops := 0, 0;
    }
  }

  lemma BegunLayout(s: Q.State, capacity: nat)
    requires s.writing.None?
    ensures var t := Q.Begin(s, capacity);
            t.writing.Some? ==> |Q.Layout(t)| == |Q.Layout(s)| + Q.HEADER_SIZE <= capacity
  {
    hide Q.Records;
  }

  lemma WritingLayout(s: Q.State, part: seq<byte>)
    requires s.writing == Some([])
    ensures |Q.Layout(s.(writing := Some(part)))| == |Q.Layout(s)| + |part|
  {
    hide Q.Records;
  }

  /** What was stored is read back as the items that were encoded. */
  lemma StoredEventDecodes(items: seq<Cbor.Item>)
    requires forall i :: 0 <= i < |items| ==> Cbor.Encodable(items[i])
    ensures Cbor.DecodeAll(Cbor.EncodeAll(items)) == Some(items)
  {
    Cbor.AllRoundTrip(items);
  }
}
