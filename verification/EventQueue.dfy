/** The event store as a queue: events are committed at one end and delivered in batches at the
  * other, and at most one event is being written (components/core/src/memfault_event_storage.c,
  * components/core/src/memfault_batched_events.c). */
module EventQueue {
  import opened Bytes
  import Cbor

  // ---- The layout of the ring buffer ----

  const HEADER_SIZE := 2
  const WRITE_IN_PROGRESS := 0xffff

  /** The size field of a record, low byte first. */
  function SizeBytes(size: nat): (s: seq<byte>)
    ensures |s| == HEADER_SIZE
  {
    [(size % 0x100) as byte, (size / 0x100 % 0x100) as byte]
  }

  function SizeFromBytes(s: seq<byte>): nat
    requires |s| == HEADER_SIZE
  {
    s[0] as nat + 0x100 * s[1] as nat
  }

  lemma SizeRoundTrip(size: nat)
    requires size < 0x1_0000
    ensures SizeFromBytes(SizeBytes(size)) == size
  {
  }

  /** A stored event: the size of the whole record and the event itself. */
  function Record(event: seq<byte>): (s: seq<byte>)
    ensures |s| == HEADER_SIZE + |event|
  {
    SizeBytes(HEADER_SIZE + |event|) + event
  }

  /** A record begins with two bytes for its size, the low one first. */
  lemma RecordFormat(event: seq<byte>)
    requires |event| + 2 < 0xffff
    ensures var r := Record(event);
            |r| == |event| + 2 == r[0] as nat + 0x100 * r[1] as nat && r[2..] == event
  {
  }

  function Records(events: seq<seq<byte>>): seq<byte> {
    if events == [] then [] else Record(events[0]) + Records(events[1..])
  }

  /** The record of an event that is still being written. */
  function Unfinished(writing: Option<seq<byte>>): seq<byte> {
    match writing
    case None => []
    case Some(part) => SizeBytes(WRITE_IN_PROGRESS) + part
  }

  // ---- Batches ----

  datatype Config = Config(batching: bool, maxBatchBytes: nat)

  /** How many events the next read delivers, when `n` events of `bytes` bytes are in the batch. */
  function BatchFrom(config: Config, events: seq<seq<byte>>, n: nat, bytes: nat): (r: nat)
    requires n <= |events|
    ensures n <= r <= |events|
    decreases |events| - n
  {
    if n == |events| then n
    else if !config.batching then n + 1
    else if n >= 1 && bytes + |events[n]| > config.maxBatchBytes then n
    else BatchFrom(config, events, n + 1, bytes + |events[n]|)
  }

  /** Without batching one event is read at a time. */
  function BatchSize(config: Config, events: seq<seq<byte>>): (r: nat)
    ensures r <= |events|
  {
    if !config.batching then Min(1, |events|) else BatchFrom(config, events, 0, 0)
  }

  /** Several events are sent as a CBOR array, of which this is the head. */
  function BatchHeader(n: nat): seq<byte> {
    if n <= 1 then [] else Cbor.Encode(Cbor.ArrayOf(n))
  }

  /** The message that a batch of events is sent as. */
  function BatchMessage(batch: seq<seq<byte>>): seq<byte> {
    BatchHeader(|batch|) + Flatten(batch)
  }

  lemma RecordsSnoc(events: seq<seq<byte>>, e: seq<byte>)
    ensures Records(events + [e]) == Records(events) + Record(e)
  {
    hide Record;
    if events == [] {
      assert Records([e]) == Record(e) + Records([]);
      assert events + [e] == [e];
    } else {
      RecordsSnoc(events[1..], e);
      assert (events + [e])[1..] == events[1..] + [e];
    }
  }

  lemma RecordsConcat(a: seq<seq<byte>>, b: seq<seq<byte>>)
    ensures Records(a + b) == Records(a) + Records(b)
  {
    hide Record;
    if a == [] {
      assert a + b == b;
    } else {
      RecordsConcat(a[1..], b);
      assert (a + b)[1..] == a[1..] + b;
    }
  }

  lemma RecordsLength(events: seq<seq<byte>>)
    ensures |Records(events)| == |Flatten(events)| + HEADER_SIZE * |events|
  {
    hide SizeBytes;
  }

  lemma TakeSnoc(events: seq<seq<byte>>, n: nat)
    requires n < |events|
    ensures events[..n + 1] == events[..n] + [events[n]]
  {
  }

  /** A batch is as large as possible: it keeps to the maximum unless it is a single event, and the
    * next event would exceed it. */
  lemma {:induction false} BatchIsMaximal(config: Config, events: seq<seq<byte>>, n: nat)
    requires config.batching && n <= |events|
    requires n <= 1 || |Flatten(events[..n])| <= config.maxBatchBytes
    ensures var r := BatchFrom(config, events, n, |Flatten(events[..n])|);
            && (r <= 1 || |Flatten(events[..r])| <= config.maxBatchBytes)
            && (n < |events| && n == 0 ==> r >= 1)
            && (r < |events| ==> |Flatten(events[..r + 1])| > config.maxBatchBytes)
    decreases |events| - n
  {
    hide Flatten;
    if n < |events| {
      TakeSnoc(events, n);
      FlattenSnoc(events[..n], events[n]);
      if !(n >= 1 && |Flatten(events[..n])| + |events[n]| > config.maxBatchBytes) {
        BatchIsMaximal(config, events, n + 1);
      }
    }
  }

  lemma BatchBounds(config: Config, events: seq<seq<byte>>)
    ensures var r := BatchSize(config, events);
            && (events != [] ==> r >= 1)
            && (config.batching && r > 1 ==> |Flatten(events[..r])| <= config.maxBatchBytes)
            && (config.batching && r < |events| ==> |Flatten(events[..r + 1])| > config.maxBatchBytes)
            && (!config.batching ==> r <= 1)
  {
    if config.batching {
      assert |Flatten(events[..0])| == 0;
      BatchIsMaximal(config, events, 0);
    }
  }

  // ---- Steps ----

  datatype State = State(
    events: seq<seq<byte>>,
    /** What has been written so far of the event at hand. */
    writing: Option<seq<byte>>,
    /** The number of events in the batch that is being read. */
    reading: nat)

  predicate Valid(s: State) {
    s.reading <= |s.events|
  }

  /** The bytes of the ring buffer. */
  function Layout(s: State): seq<byte> {
    Records(s.events) + Unfinished(s.writing)
  }

  function TotalSize(s: State): nat
    requires Valid(s)
  {
    if s.reading == 0 then 0 else |BatchMessage(s.events[..s.reading])|
  }

  /** Starts a new event, if none is being written and its header fits. */
  function Begin(s: State, capacity: nat): State {
    if s.writing.None? && |Layout(s)| + HEADER_SIZE <= capacity then s.(writing := Some([])) else s
  }

  function Append(s: State, capacity: nat, data: seq<byte>): State
    requires s.writing.Some?
  {
    if |Layout(s)| + |data| <= capacity then s.(writing := Some(s.writing.value + data)) else s
  }

  /** Commits the event being written, or drops it. */
  function Finish(s: State, rollback: bool): State {
    if s.writing.None? then s
    else if rollback then s.(writing := None)
    else s.(events := s.events + [s.writing.value], writing := None)
  }

  /** Chooses the batch to read, unless one with something in it is chosen already. */
  function HasData(s: State, config: Config): State
    requires Valid(s)
  {
    if TotalSize(s) != 0 then s else s.(reading := BatchSize(config, s.events))
  }

  function MarkRead(s: State): State
    requires Valid(s)
  {
    s.(events := s.events[s.reading..], reading := 0)
  }

  // ---- Runs ----

  datatype Op =
    | OpBegin
    | OpAppend(data: seq<byte>)
    | OpFinish(rollback: bool)
    | OpHasData
    | OpMarkRead

  datatype History = History(committed: seq<seq<byte>>, delivered: seq<seq<byte>>)

  datatype World = World(state: State, history: History)

  const START := World(State([], None, 0), History([], []))

  /** One operation of the writer or of the reader. Each is one critical section of the code. */
  function Step(w: World, op: Op, capacity: nat, config: Config): World
    requires Valid(w.state)
  {
    var s, h := w.state, w.history;
    match op
    case OpBegin => w.(state := Begin(s, capacity))
    case OpAppend(data) => if s.writing.None? then w else w.(state := Append(s, capacity, data))
    case OpFinish(rollback) =>
      World(Finish(s, rollback),
            if s.writing.Some? && !rollback then h.(committed := h.committed + [s.writing.value]) else h)
    case OpHasData => w.(state := HasData(s, config))
    case OpMarkRead => World(MarkRead(s), h.(delivered := h.delivered + s.events[..s.reading]))
  }

  predicate Fifo(w: World, capacity: nat) {
    && Valid(w.state)
    && w.history.committed == w.history.delivered + w.state.events
    && |Layout(w.state)| <= capacity
  }

  lemma LayoutOfCommitted(events: seq<seq<byte>>, part: seq<byte>)
    ensures |Layout(State(events + [part], None, 0))| == |Layout(State(events, Some(part), 0))|
  {
    RecordsSnoc(events, part);
  }

  lemma DroppedRecords(events: seq<seq<byte>>, n: nat)
    requires n <= |events|
    ensures Records(events) == Records(events[..n]) + Records(events[n..])
  {
    hide Records;
    RecordsConcat(events[..n], events[n..]);
    SplitEvents(events, n);
  }

  lemma SplitEvents(events: seq<seq<byte>>, n: nat)
    requires n <= |events|
    ensures events[..n] + events[n..] == events
  {
  }

  lemma StepKeepsFifo(w: World, op: Op, capacity: nat, config: Config)
    requires Fifo(w, capacity)
    ensures Fifo(Step(w, op, capacity, config), capacity)
  {
    hide Records, BatchSize, BatchMessage;
    var s := w.state;
    match op
    case OpBegin =>
    case OpAppend(data) =>
    case OpFinish(rollback) =>
      if s.writing.Some? && !rollback {
        LayoutOfCommitted(s.events, s.writing.value);
      }
    case OpHasData =>
    case OpMarkRead =>
      DroppedRecords(s.events, s.reading);
      assert s.events == s.events[..s.reading] + s.events[s.reading..];
  }

  function Run(w: World, ops: seq<Op>, capacity: nat, config: Config): World
    requires Fifo(w, capacity)
    ensures Fifo(Run(w, ops, capacity, config), capacity)
    decreases |ops|
  {
    if ops == [] then w
    else
      StepKeepsFifo(w, ops[0], capacity, config);
      Run(Step(w, ops[0], capacity, config), ops[1..], capacity, config)
  }

  /** First in, first out, over every interleaving of the writer and the reader: the events delivered
    * so far and then the ones still stored are exactly the events committed, in order. An event that
    * is being written or was rolled back is not among them. */
  lemma FirstInFirstOut(ops: seq<Op>, capacity: nat, config: Config)
    ensures var w := Run(START, ops, capacity, config);
            w.history.delivered + w.state.events == w.history.committed
  {
  }

  /** Rolling back undoes everything the writer did since it began. */
  lemma {:induction false} RollbackRestores(s: State, capacity: nat, parts: seq<seq<byte>>)
    requires s.writing.None?
    ensures var t := Finish(AppendAll(Begin(s, capacity), capacity, parts), true);
            t == s && Layout(t) == Layout(s)
  {
    AppendOnlyWrites(Begin(s, capacity), capacity, parts);
  }

  function AppendAll(s: State, capacity: nat, parts: seq<seq<byte>>): State
    decreases |parts|
  {
    if parts == [] then s
    else AppendAll(if s.writing.None? then s else Append(s, capacity, parts[0]), capacity, parts[1..])
  }

  lemma {:induction false} AppendOnlyWrites(s: State, capacity: nat, parts: seq<seq<byte>>)
    ensures var t := AppendAll(s, capacity, parts);
            t.events == s.events && t.reading == s.reading && t.writing.Some? == s.writing.Some?
    decreases |parts|
  {
    if parts != [] {
      AppendOnlyWrites(if s.writing.None? then s else Append(s, capacity, parts[0]), capacity, parts[1..]);
    }
  }

  /** An event that is begun, appended to and committed is stored as all its parts, if there is room for them
    * and two bytes more. */
  lemma {:induction false} CommitStoresParts(s: State, capacity: nat, parts: seq<seq<byte>>)
    requires s.writing.None? && |Layout(s)| + 2 + |Flatten(parts)| <= capacity
    ensures Finish(AppendAll(Begin(s, capacity), capacity, parts), false) == s.(events := s.events + [Flatten(parts)])
  {
    hide Records;
    AllAreAppended(Begin(s, capacity), capacity, parts);
    assert [] + Flatten(parts) == Flatten(parts);
  }

  lemma {:induction false} AllAreAppended(s: State, capacity: nat, parts: seq<seq<byte>>)
    requires s.writing.Some? && |Layout(s)| + |Flatten(parts)| <= capacity
    ensures AppendAll(s, capacity, parts) == s.(writing := Some(s.writing.value + Flatten(parts)))
    decreases |parts|
  {
    hide Records;
    if parts == [] {
      assert s.writing.value + [] == s.writing.value;
    } else {
      AllAreAppended(Append(s, capacity, parts[0]), capacity, parts[1..]);
      Regroup(s.writing.value, parts[0], Flatten(parts[1..]));
    }
  }

  /** While a batch is being read, its message does not change, whatever is written meanwhile. */
  lemma BatchIsStable(w: World, op: Op, capacity: nat, config: Config)
    requires Fifo(w, capacity) && TotalSize(w.state) != 0 && !op.OpMarkRead?
    ensures var t := Step(w, op, capacity, config).state;
            Valid(t) && t.reading == w.state.reading &&
            BatchMessage(t.events[..t.reading]) == BatchMessage(w.state.events[..w.state.reading])
  {
    StepKeepsFifo(w, op, capacity, config);
    var t := Step(w, op, capacity, config).state;
    assert t.events[..w.state.reading] == w.state.events[..w.state.reading];
  }

  /** A reader that asks for data gets some exactly when an event is stored, with one exception: an event
    * without any bytes that has to be sent alone, because it is the only one, or events are not sent
    * together, or the next one is too long for that, hides everything behind it. */
  lemma HasDataUnlessEventIsEmpty(s: State, config: Config)
    requires Valid(s) && TotalSize(s) == 0
    ensures TotalSize(HasData(s, config)) == 0 <==>
            s.events == [] ||
            (s.events[0] == [] &&
             (!config.batching || |s.events| == 1 || |s.events[1]| > config.maxBatchBytes))
  {
    hide BatchSize;
    BatchBounds(config, s.events);
    if s.events != [] {
      assert s.events[..1] == [s.events[0]];
      LoneEvent(s.events[0]);
      if s.events[0] == [] {
        FirstIsAlone(config, s.events);
      }
    }
  }

  lemma FirstIsAlone(config: Config, events: seq<seq<byte>>)
    requires events != [] && events[0] == []
    ensures BatchSize(config, events) == 1 <==>
            !config.batching || |events| == 1 || |events[1]| > config.maxBatchBytes
  {
    if config.batching {
      assert BatchFrom(config, events, 0, 0) == BatchFrom(config, events, 1, 0);
      if |events| > 1 && |events[1]| <= config.maxBatchBytes {
        assert BatchFrom(config, events, 1, 0) == BatchFrom(config, events, 2, |events[1]|);
      }
    }
  }

  lemma LoneEvent(e: seq<byte>)
    ensures BatchMessage([e]) == e
  {
    FlattenFew(e);
    assert [] + e == e;
  }

  /** The first event in the buffer, which is going to be read alone, is empty. */
  predicate Blocked(s: State) {
    Valid(s) && s.events != [] && s.events[0] == [] && s.reading <= 1
  }

  lemma BlockedHasNoData(s: State, config: Config)
    requires Blocked(s) && !config.batching
    ensures TotalSize(HasData(s, config)) == TotalSize(s) == 0
  {
    assert s.events[..1] == [[]];
    LoneEvent([]);
  }

  /** When such an event is committed first and events are sent one at a time, the reader never gets
    * anything, whatever is written from then on. */
  lemma {:induction false} EmptyEventBlocksTheReader(ops: seq<Op>, capacity: nat, config: Config)
    requires capacity >= HEADER_SIZE && !config.batching
    requires forall i :: 0 <= i < |ops| ==> !ops[i].OpMarkRead?
    ensures var w := Run(START, [OpBegin, OpFinish(false)], capacity, config);
            && w.state.events == [[]]
            && TotalSize(HasData(Run(w, ops, capacity, config).state, config)) == 0
  {
    hide HasData, TotalSize;
    var begun := Step(START, OpBegin, capacity, config);
    assert [OpBegin, OpFinish(false)][1..] == [OpFinish(false)] && [OpFinish(false)][1..] == [];
    var w := Run(START, [OpBegin, OpFinish(false)], capacity, config);
    assert w == Step(begun, OpFinish(false), capacity, config);
    StaysBlocked(w, ops, capacity, config);
    BlockedHasNoData(Run(w, ops, capacity, config).state, config);
  }

  lemma {:induction false} StaysBlocked(w: World, ops: seq<Op>, capacity: nat, config: Config)
    requires Fifo(w, capacity) && Blocked(w.state) && !config.batching
    requires forall i :: 0 <= i < |ops| ==> !ops[i].OpMarkRead?
    ensures Blocked(Run(w, ops, capacity, config).state)
    decreases |ops|
  {
    hide TotalSize, Layout;
    if ops != [] {
      StepKeepsFifo(w, ops[0], capacity, config);
      StaysBlocked(Step(w, ops[0], capacity, config), ops[1..], capacity, config);
    }
  }
}
