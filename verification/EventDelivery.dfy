/** The event storage behind the packetizer: what a receiver takes out of the messages it gets are the
  * events that were committed, in order. */
module EventDelivery {
  import opened Bytes
  import opened Cbor
  import Q = EventQueue
  import P = PacketizerSpec
  import D = Delivery

  /** The place of the event storage among the sources. */
  const EVENTS := 1

  // ---- The device with its event storage, the transport and the receiver ----

  datatype World = World(
    /** Packetizer, transport and receiver. In the queue of the event storage is the batch being read. */
    link: D.World,
    events: Q.World,
    /** The batches that were read, in order. */
    batches: seq<seq<seq<byte>>>)

  datatype Op =
    | Write(write: Q.Op)
    | DataAvailable
    | Send(send: D.Op)

  /** The event storage is read by the packetizer alone, and fills its own queue. */
  predicate Allowed(op: Op) {
    match op
    case Write(write) => write.OpBegin? || write.OpAppend? || write.OpFinish?
    case DataAvailable => true
    case Send(send) => D.Allowed(send) && (send.Store? ==> send.source != EVENTS)
  }

  /** The message of the batch that is being read, if there is one. */
  function Offered(s: Q.State): seq<seq<byte>>
    requires Q.Valid(s)
  {
    if Q.TotalSize(s) == 0 then [] else [Q.BatchMessage(s.events[..s.reading])]
  }

  /** Whether the packetizer asks the event storage for a message: coredumps go first. */
  predicate IsAsked(s: P.State) {
    s.active.None? && EVENTS in s.enabled && (0 in s.enabled ==> s.queues[0] == [])
  }

  /** The packetizer asks it exactly when it would load a message that is there. */
  lemma AskedWhenFirst(s: P.State, msg: seq<byte>)
    ensures IsAsked(s) <==>
            s.active.None? && P.SourceWithData(s.(queues := s.queues[1 := [msg]]), 0) == Some(1)
  {
    P.SourceIsFirst(s.(queues := s.queues[1 := [msg]]));
  }

  ghost function Select(w: World, capacity: nat, config: Q.Config): World
    requires Invariant(w, capacity) && capacity < 0xffff
  {
    var t := w.(events := Q.Step(w.events, Q.OpHasData, capacity, config));
    if !IsAsked(w.link.device) then w
    else if Offered(t.events.state) == Offered(w.events.state) then t
    else
      OfferedIsSendable(t.events, capacity);
      t.(link := D.Step(w.link, D.Store(EVENTS, Offered(t.events.state)[0])))
  }

  ghost function Step(w: World, op: Op, capacity: nat, config: Q.Config): World
    requires Invariant(w, capacity) && Allowed(op) && capacity < 0xffff
  {
    match op
    case Write(write) => w.(events := Q.Step(w.events, write, capacity, config))
    case DataAvailable => Select(w, capacity, config)
    case Send(Begin(multiCall)) =>
      SelectKeeps(w, capacity, config);
      var t := Select(w, capacity, config);
      t.(link := D.Step(t.link, D.Begin(multiCall)))
    case Send(send) =>
      var t := w.(link := D.Step(w.link, send));
      if send.GetNext? && IsFinished(w, t) then
        t.(events := Q.Step(w.events, Q.OpMarkRead, capacity, config),
           batches := w.batches + [w.events.state.events[..w.events.state.reading]])
      else t
  }

  /** The last bytes of a batch were sent. */
  predicate IsFinished(w: World, t: World) {
    w.link.device.active.Some? && w.link.device.active.value.source == EVENTS && t.link.device.active.None?
  }

  // ---- The invariant ----

  function Messages(batches: seq<seq<seq<byte>>>): seq<seq<byte>> {
    if batches == [] then []
    else Messages(batches[..|batches| - 1]) + [Q.BatchMessage(batches[|batches| - 1])]
  }

  ghost predicate NotEmpty(batches: seq<seq<seq<byte>>>) {
    forall i :: 0 <= i < |batches| ==> batches[i] != []
  }

  ghost predicate Invariant(w: World, capacity: nat) {
    && D.Invariant(w.link) && Q.Fifo(w.events, capacity)
    && w.link.device.queues[EVENTS] == Offered(w.events.state)
    && D.From(EVENTS, w.link.deleted) == Messages(w.batches)
    && w.events.history.delivered == Flatten(w.batches) && NotEmpty(w.batches)
  }

  lemma InvariantIsValid(w: World, capacity: nat)
    requires Invariant(w, capacity)
    ensures P.Valid(w.link.device) && Q.Valid(w.events.state)
  {
    hide P.Valid, D.InStep, D.AllArrived, D.NothingLost, D.From, Messages, Flatten;
  }

  lemma OfferedIsSendable(w: Q.World, capacity: nat)
    requires Q.Fifo(w, capacity) && capacity < 0xffff && Offered(w.state) != []
    ensures P.Sendable(Offered(w.state)[0])
  {
    hide Q.Records, Flatten, Head;
    var batch := w.state.events[..w.state.reading];
    Q.DroppedRecords(w.state.events, w.state.reading);
    Q.RecordsLength(batch);
  }

  // ---- Every step keeps it ----

  lemma SelectKeeps(w: World, capacity: nat, config: Q.Config)
    requires Invariant(w, capacity) && capacity < 0xffff
    ensures Invariant(Select(w, capacity, config), capacity)
    ensures Select(w, capacity, config).link.device.active == w.link.device.active
  {
    hide D.Invariant, Q.Fifo, Messages, Flatten, D.From, Q.BatchMessage, Q.BatchSize;
    InvariantIsValid(w, capacity);
    Q.StepKeepsFifo(w.events, Q.OpHasData, capacity, config);
    var t := w.(events := Q.Step(w.events, Q.OpHasData, capacity, config));
    if IsAsked(w.link.device) && Offered(t.events.state) != Offered(w.events.state) {
      OfferedIsSendable(t.events, capacity);
      D.StepKeeps(w.link, D.Store(EVENTS, Offered(t.events.state)[0]));
    }
  }

  lemma WriteKeeps(w: World, op: Q.Op, capacity: nat, config: Q.Config)
    requires Invariant(w, capacity) && Allowed(Write(op)) && capacity < 0xffff
    ensures Invariant(Step(w, Write(op), capacity, config), capacity)
  {
    hide D.Invariant, Messages, Flatten, D.From, Q.BatchMessage, Q.Layout;
    Q.StepKeepsFifo(w.events, op, capacity, config);
    var s, t := w.events.state, Q.Step(w.events, op, capacity, config).state;
    assert t.events[..s.reading] == s.events[..s.reading];
  }

  /** What sending does to the queue of the event storage. */
  lemma LinkStep(w: D.World, op: D.Op)
    requires D.Invariant(w) && D.Allowed(op) && (op.Store? ==> op.source != EVENTS)
    ensures var t := D.Step(w, op);
            var finished := op.GetNext? && w.device.active.Some? && t.device.active.None? && w.device.active.value.source == EVENTS;
            && (finished ==> w.device.queues[EVENTS] != [])
            && t.device.queues[EVENTS] == (if finished then w.device.queues[EVENTS][1..] else w.device.queues[EVENTS])
            && D.From(EVENTS, t.deleted) ==
               D.From(EVENTS, w.deleted) + (if finished then [w.device.queues[EVENTS][0]] else [])
  {
    hide D.InStep, D.AllArrived, D.NothingLost, D.From, P.Wire, D.Receive;
    if op.GetNext? {
      LinkGetNext(w, op.space);
    } else {
      assert D.From(EVENTS, w.deleted) + [] == D.From(EVENTS, w.deleted);
    }
  }

  lemma LinkGetNext(w: D.World, space: nat)
    requires D.Invariant(w)
    ensures var t := D.Step(w, D.GetNext(space));
            var finished := w.device.active.Some? && t.device.active.None? && w.device.active.value.source == EVENTS;
            && (finished ==> w.device.queues[EVENTS] != [])
            && t.device.queues[EVENTS] == (if finished then w.device.queues[EVENTS][1..] else w.device.queues[EVENTS])
            && D.From(EVENTS, t.deleted) ==
               D.From(EVENTS, w.deleted) + (if finished then [w.device.queues[EVENTS][0]] else [])
  {
    hide D.InStep, D.AllArrived, D.NothingLost, D.From, P.Wire;
    var t := D.Step(w, D.GetNext(space));
    if w.device.active.Some? && t.device.active.None? {
      D.FromSnoc(EVENTS, w.deleted, D.Sending(w.device));
      assert t.deleted == w.deleted + [D.Sending(w.device)];
    } else {
      assert t.deleted == w.deleted + [] == w.deleted;
      assert D.From(EVENTS, w.deleted) + [] == D.From(EVENTS, w.deleted);
    }
  }

  lemma MessagesSnoc(batches: seq<seq<seq<byte>>>, batch: seq<seq<byte>>)
    ensures Messages(batches + [batch]) == Messages(batches) + [Q.BatchMessage(batch)]
  {
    assert (batches + [batch])[..|batches|] == batches;
  }

  lemma SendKeeps(w: World, op: D.Op, capacity: nat, config: Q.Config)
    requires Invariant(w, capacity) && Allowed(Send(op)) && capacity < 0xffff && !op.Begin?
    ensures Invariant(Step(w, Send(op), capacity, config), capacity)
  {
    hide D.Invariant, Q.Fifo, Messages, Flatten, D.From, Q.BatchMessage, D.Step;
    InvariantIsValid(w, capacity);
    D.StepKeeps(w.link, op);
    LinkStep(w.link, op);
    var t := w.(link := D.Step(w.link, op));
    if op.GetNext? && IsFinished(w, t) {
      var batch := w.events.state.events[..w.events.state.reading];
      Q.StepKeepsFifo(w.events, Q.OpMarkRead, capacity, config);
      FlattenSnoc(w.batches, batch);
      MessagesSnoc(w.batches, batch);
    } else {
      assert Messages(w.batches) + [] == Messages(w.batches);
    }
  }

  lemma BeginKeeps(w: World, multiCall: bool, capacity: nat, config: Q.Config)
    requires Invariant(w, capacity) && capacity < 0xffff
    ensures Invariant(Step(w, Send(D.Begin(multiCall)), capacity, config), capacity)
  {
    hide D.Invariant, Q.Fifo, Messages, Flatten, D.From, Q.BatchMessage, D.Step, Select;
    SelectKeeps(w, capacity, config);
    var t := Select(w, capacity, config);
    D.StepKeeps(t.link, D.Begin(multiCall));
    LinkStep(t.link, D.Begin(multiCall));
    assert Messages(w.batches) + [] == Messages(w.batches);
  }

  lemma StepKeeps(w: World, op: Op, capacity: nat, config: Q.Config)
    requires Invariant(w, capacity) && Allowed(op) && capacity < 0xffff
    ensures Invariant(Step(w, op, capacity, config), capacity)
  {
    hide Invariant;
    match op
    case Write(write) => WriteKeeps(w, write, capacity, config);
    case DataAvailable => SelectKeeps(w, capacity, config);
    case Send(send) =>
      if send.Begin? {
        BeginKeeps(w, send.multiCall, capacity, config);
      } else {
        SendKeeps(w, send, capacity, config);
      }
  }

  ghost function Run(w: World, ops: seq<Op>, capacity: nat, config: Q.Config): World
    requires Invariant(w, capacity) && capacity < 0xffff && forall i :: 0 <= i < |ops| ==> Allowed(ops[i])
    ensures Invariant(Run(w, ops, capacity, config), capacity)
    decreases |ops|
  {
    if ops == [] then w
    else
      StepKeeps(w, ops[0], capacity, config);
      Run(Step(w, ops[0], capacity, config), ops[1..], capacity, config)
  }

  // ---- How the receiver takes events out of a message ----

  function Children(item: Item): nat {
    match item
    case ArrayOf(n) => n
    case MapOf(n) => 2 * n
    case _ => 0
  }

  /** What is behind the first `n` data items, each with all that is nested in it. */
  function Behind(items: seq<Item>, n: nat): (rest: Option<seq<Item>>)
    ensures rest.Some? ==> |rest.value| <= |items| && (n > 0 ==> |rest.value| < |items|)
    decreases |items|
  {
    if n == 0 then Some(items)
    else if items == [] then None
    else Behind(items[1..], n - 1 + Children(items[0]))
  }

  /** Takes `n` data items apart. */
  function Split(items: seq<Item>, n: nat): Option<seq<seq<Item>>>
    decreases n
  {
    if n == 0 then (if items == [] then Some([]) else None)
    else
      match Behind(items, 1)
      case None => None
      case Some(rest) =>
        match Split(rest, n - 1)
        case None => None
        case Some(others) => Some([items[..|items| - |rest|]] + others)
  }

  /** The events in a message, which is one of them or an array of several. */
  function EventsIn(msg: seq<byte>): Option<seq<seq<Item>>> {
    match DecodeAll(msg)
    case None => None
    case Some(items) =>
      if items != [] && items[0].ArrayOf? then Split(items[1..], items[0].elements) else Split(items, 1)
  }

  /** An event is one map with what is nested in it. */
  ghost predicate IsEvent(items: seq<Item>) {
    && items != [] && items[0].MapOf? && Behind(items, 1) == Some([])
    && forall i :: 0 <= i < |items| ==> Encodable(items[i])
  }

  ghost predicate AllEvents(logged: seq<seq<Item>>) {
    forall i :: 0 <= i < |logged| ==> IsEvent(logged[i])
  }

  function Encoded(logged: seq<seq<Item>>): (s: seq<seq<byte>>)
    ensures |s| == |logged|
  {
    seq(|logged|, i requires 0 <= i < |logged| => EncodeAll(logged[i]))
  }

  lemma {:induction false} BehindFirst(a: seq<Item>, b: seq<Item>, n: nat)
    requires Behind(a, n) == Some([])
    ensures Behind(a + b, n) == Some(b)
    decreases |a|
  {
    hide Children;
    if a == [] {
      assert a + b == b;
    } else {
      assert (a + b)[1..] == a[1..] + b;
      BehindFirst(a[1..], b, n - 1 + Children(a[0]));
    }
  }

  lemma {:induction false} SplitTogether(logged: seq<seq<Item>>)
    requires AllEvents(logged)
    ensures Split(Flatten(logged), |logged|) == Some(logged)
    decreases |logged|
  {
    hide Behind, Encodable;
    if logged != [] {
      var first, rest := logged[0], Flatten(logged[1..]);
      BehindFirst(first, rest, 1);
      SplitTogether(logged[1..]);
      assert (first + rest)[..|first|] == first;
      assert [first] + logged[1..] == logged;
    }
  }

  lemma {:induction false} EncodedTogether(logged: seq<seq<Item>>)
    ensures Flatten(Encoded(logged)) == EncodeAll(Flatten(logged))
    decreases |logged|
  {
    hide EncodeAll;
    if logged == [] {
      NothingEncoded();
    } else {
      EncodedTogether(logged[1..]);
      EncodeAllConcat(logged[0], Flatten(logged[1..]));
      assert Encoded(logged)[1..] == Encoded(logged[1..]);
    }
  }

  lemma NothingEncoded()
    ensures EncodeAll([]) == []
  {
  }

  lemma {:induction false} TogetherEncodable(logged: seq<seq<Item>>)
    requires AllEvents(logged)
    ensures forall i :: 0 <= i < |Flatten(logged)| ==> Encodable(Flatten(logged)[i])
    decreases |logged|
  {
    hide Encodable, Behind;
    if logged != [] {
      TogetherEncodable(logged[1..]);
      assert IsEvent(logged[0]);
    }
  }

  /** The receiver gets the events of a batch back. */
  lemma EventsInBatch(logged: seq<seq<Item>>)
    requires logged != [] && AllEvents(logged) && |logged| < UINT32_LIMIT
    ensures EventsIn(Q.BatchMessage(Encoded(logged))) == Some(logged)
  {
    hide Split, Flatten, DecodeAll, EncodeAll, Encode, Encoded, Behind;
    var items, n := Flatten(logged), |logged|;
    EncodedTogether(logged);
    SplitTogether(logged);
    TogetherEncodable(logged);
    if n == 1 {
      FirstItem(logged);
      AllRoundTrip(items);
      assert [] + EncodeAll(items) == EncodeAll(items);
    } else {
      var all := [ArrayOf(n)] + items;
      AllRoundTrip(all);
      ArrayHead(n, items);
      assert all[1..] == items;
    }
  }

  lemma FirstItem(logged: seq<seq<Item>>)
    requires logged != [] && IsEvent(logged[0])
    ensures Flatten(logged) != [] && Flatten(logged)[0] == logged[0][0]
  {
  }

  lemma ArrayHead(n: nat, items: seq<Item>)
    ensures EncodeAll([ArrayOf(n)] + items) == Encode(ArrayOf(n)) + EncodeAll(items)
  {
    assert ([ArrayOf(n)] + items)[1..] == items;
  }

  /** The events that the receiver takes out of all messages of type 2 that it got. */
  function EventsReceived(received: seq<seq<byte>>): Option<seq<seq<Item>>> {
    if received == [] then Some([])
    else
      var msg := received[|received| - 1];
      var before := EventsReceived(received[..|received| - 1]);
      if D.TypeOf(msg) != 2 then before
      else
        var stored := D.Unframe(msg);
        var events := if stored.None? then None else EventsIn(stored.value);
        if before.None? || events.None? then None else Some(before.value + events.value)
  }

  function EventsInAll(messages: seq<seq<byte>>): Option<seq<seq<Item>>> {
    if messages == [] then Some([])
    else
      var before, events := EventsInAll(messages[..|messages| - 1]), EventsIn(messages[|messages| - 1]);
      if before.None? || events.None? then None else Some(before.value + events.value)
  }

  /** The messages of other sources are told apart by their type. */
  lemma {:induction false} OnlyEventMessages(received: seq<seq<byte>>, deleted: seq<D.Message>)
    requires D.AllArrived(received, deleted)
    ensures EventsReceived(received) == EventsInAll(D.From(EVENTS, deleted))
    decreases |received|
  {
    hide D.Unframe, D.TypeOf, P.Wire, EventsIn;
    if received != [] {
      var n := |received| - 1;
      OnlyEventMessages(received[..n], deleted[..n]);
      D.UnframeWire(deleted[n].source, deleted[n].stored);
      var before := D.From(EVENTS, deleted[..n]);
      if deleted[n].source == EVENTS {
        assert (before + [deleted[n].stored])[..|before|] == before;
      } else {
        assert before + [] == before;
      }
    }
  }

  lemma EncodedSlice(logged: seq<seq<Item>>, a: nat, b: nat)
    requires a <= b <= |logged|
    ensures Encoded(logged)[a..b] == Encoded(logged[a..b])
  {
    hide EncodeAll;
    var part := logged[a..b];
    assert forall i :: 0 <= i < |part| ==> part[i] == logged[a + i];
  }

  lemma LastPart<T>(parts: seq<seq<T>>)
    requires parts != []
    ensures var all, n := Flatten(parts), |Flatten(parts[..|parts| - 1])|;
            n <= |all| && all[..n] == Flatten(parts[..|parts| - 1]) && all[n..] == parts[|parts| - 1]
  {
    FlattenSnoc(parts[..|parts| - 1], parts[|parts| - 1]);
    assert parts[..|parts| - 1] + [parts[|parts| - 1]] == parts;
  }

  /** Taking the batches apart gives all events in them. */
  lemma {:induction false} EventsInMessages(batches: seq<seq<seq<byte>>>, logged: seq<seq<Item>>)
    requires AllEvents(logged) && Flatten(batches) == Encoded(logged) && NotEmpty(batches)
    requires |logged| < UINT32_LIMIT
    ensures EventsInAll(Messages(batches)) == Some(logged)
    decreases |batches|
  {
    hide EventsIn, Q.BatchMessage, IsEvent, Encoded;
    if batches == [] {
      assert |Encoded(logged)| == 0;
    } else {
      var n, rest := |Flatten(batches[..|batches| - 1])|, batches[..|batches| - 1];
      LastPart(batches);
      EncodedSlice(logged, 0, n);
      EncodedSlice(logged, n, |logged|);
      assert logged[0..n] == logged[..n] && logged[n..|logged|] == logged[n..];
      EventsInMessages(rest, logged[..n]);
      EventsInBatch(logged[n..]);
      var messages := Messages(rest);
      assert Messages(batches) == messages + [Q.BatchMessage(batches[|batches| - 1])];
      assert batches[|batches| - 1] == Encoded(logged[n..]);
      assert (messages + [Q.BatchMessage(batches[|batches| - 1])])[..|messages|] == messages;
      assert logged[..n] + logged[n..] == logged;
    }
  }

  // ---- The main result ----

  /** An empty event storage behind an idle packetizer. */
  ghost predicate Initial(w: World) {
    && D.Initial(w.link) && w.events == Q.START && w.batches == []
  }

  lemma InitialIsInvariant(w: World, capacity: nat)
    requires Initial(w)
    ensures Invariant(w, capacity)
  {
    hide D.Invariant;
    D.ExactlyTheDeletedMessagesArrive(w.link, []);
  }

  /** Whatever the writer, the packetizer and other sources do, and in whatever order: when the events
    * that were committed are `logged`, the receiver has got just the first of these, in order and each
    * once, and the others are still stored. */
  lemma EventsArriveInOrder(w: World, ops: seq<Op>, capacity: nat, config: Q.Config, logged: seq<seq<Item>>)
    requires Initial(w) && capacity < 0xffff && forall i :: 0 <= i < |ops| ==> Allowed(ops[i])
    requires AllEvents(logged) && |logged| < UINT32_LIMIT
    ensures Invariant(w, capacity)
    ensures var v := Run(w, ops, capacity, config);
            v.events.history.committed == Encoded(logged) ==>
              var n := |v.events.history.delivered|;
              && n <= |logged|
              && EventsReceived(v.link.received) == Some(logged[..n])
              && v.events.state.events == Encoded(logged[n..])
  {
    hide IsEvent, Step, D.Invariant, D.Initial, Encoded, EventsReceived, EventsInAll, Run;
    InitialIsInvariant(w, capacity);
    var v := Run(w, ops, capacity, config);
    if v.events.history.committed == Encoded(logged) {
      ArrivedSoFar(v, capacity, logged);
    }
  }

  lemma ArrivedSoFar(v: World, capacity: nat, logged: seq<seq<Item>>)
    requires Invariant(v, capacity) && v.events.history.committed == Encoded(logged)
    requires AllEvents(logged) && |logged| < UINT32_LIMIT
    ensures var n := |v.events.history.delivered|;
            && n <= |logged|
            && EventsReceived(v.link.received) == Some(logged[..n])
            && v.events.state.events == Encoded(logged[n..])
  {
    hide IsEvent, Encoded, EventsReceived, EventsInAll, D.InStep, D.NothingLost, D.AllArrived, Q.Layout, Messages, Flatten, D.From;
    var n := |v.events.history.delivered|;
    EncodedSlice(logged, 0, n);
    EncodedSlice(logged, n, |logged|);
    assert logged[0..n] == logged[..n] && logged[n..|logged|] == logged[n..];
    OnlyEventMessages(v.link.received, v.link.deleted);
    EventsInMessages(v.batches, logged[..n]);
  }

  lemma NoneIsEmpty(logged: seq<seq<Item>>)
    requires AllEvents(logged)
    ensures logged != [] ==> Encoded(logged) != [] && Encoded(logged)[0] != []
  {
    hide Encode, Behind;
    if logged != [] {
      assert IsEvent(logged[0]);
    }
  }

  /** When the packetizer asks the event storage and gets nothing, the receiver has got every event that was
    * committed. */
  lemma NoDataMeansAllArrived(v: World, capacity: nat, config: Q.Config, logged: seq<seq<Item>>)
    requires Invariant(v, capacity) && v.events.history.committed == Encoded(logged) && capacity < 0xffff
    requires AllEvents(logged) && |logged| < UINT32_LIMIT
    requires IsAsked(v.link.device) && Select(v, capacity, config).link.device.queues[EVENTS] == []
    ensures EventsReceived(v.link.received) == Some(logged)
  {
    hide IsEvent, EncodeAll, EventsReceived, D.Invariant, Q.Layout, Messages, Flatten, D.From, Q.BatchSize, Q.BatchMessage;
    ArrivedSoFar(v, capacity, logged);
    SelectKeeps(v, capacity, config);
    var n := |v.events.history.delivered|;
    NoneIsEmpty(logged[n..]);
    if Q.TotalSize(v.events.state) == 0 {
      Q.HasDataUnlessEventIsEmpty(v.events.state, config);
    }
    assert logged[..n] == logged;
  }
}
