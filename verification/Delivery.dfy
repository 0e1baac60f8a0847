/** Device, transport and receiver together: over every run, the receiver decodes exactly the
  * messages that the device has deleted, in that order, and the device deletes no message that the
  * receiver has not got.
  *
  * The transport is reliable and in order, as the packetizer asks for; it collects the bytes of a
  * chunk until the packetizer says that the chunk is complete, and drops an incomplete one when the
  * message is aborted. */
module Delivery {
  import opened Bytes
  import opened Chunking
  import opened MessageReader
  import P = PacketizerSpec
  import RleSpec

  datatype Message = Message(source: nat, stored: seq<byte>)

  datatype World = World(
    device: P.State,
    /** The bytes of a chunk that is not complete yet. */
    open: seq<byte>,
    /** What the receiver makes of the chunks it got. */
    assembly: Assembly,
    /** The messages the receiver has put together. */
    received: seq<seq<byte>>,
    /** The messages the device has deleted, and all that were ever stored in it. */
    deleted: seq<Message>,
    stored: seq<Message>)

  datatype Op =
    | Begin(multiCall: bool)
    | GetNext(space: nat)
    | Abort
    | SetActiveSources(enabled: set<nat>)
    | Store(source: nat, stored: seq<byte>)

  /** Producers store messages that can be sent; all other operations are allowed at any time. */
  predicate Allowed(op: Op) {
    op.Store? ==> op.source < P.NUM_SOURCES && P.Sendable(op.stored)
  }

  function Receive(w: World, status: P.Status, bytes: seq<byte>): World {
    match status
    case NoMoreData => w
    case MoreDataForChunk => w.(open := w.open + bytes)
    case EndOfChunk =>
      var a := Accept(w.assembly, w.open + bytes);
      w.(open := [], assembly := a, received := w.received + if a.Complete? then [a.msg] else [])
  }

  ghost function Step(w: World, op: Op): World
    requires P.Valid(w.device) && Allowed(op)
  {
    match op
    case Begin(multiCall) => w.(device := P.Begin(w.device, multiCall))
    case GetNext(space) =>
      var r := P.GetNext(w.device, space);
      var finished := w.device.active.Some? && r.state.active.None?;
      Receive(w, r.status, r.bytes).(
        device := r.state,
        deleted := w.deleted + if finished then [Sending(w.device)] else [])
    case Abort => w.(device := P.Abort(w.device), open := [])
    case SetActiveSources(enabled) => w.(device := P.SetActiveSources(w.device, enabled), open := [])
    case Store(source, stored) =>
      w.(device := P.Store(w.device, source, stored), stored := w.stored + [Message(source, stored)])
  }

  /** The stored message that is being sent. */
  ghost function Sending(s: P.State): Message
    requires P.Valid(s) && s.active.Some?
  {
    Message(s.active.value.source, s.queues[s.active.value.source][0])
  }

  // ---- The receiver's view of a message ----

  function Unframe(msg: seq<byte>): Option<seq<byte>> {
    if msg == [] then None
    else if msg[0] >= 0x80 then RleSpec.Decode(msg[1..])
    else Some(msg[1..])
  }

  function TypeOf(msg: seq<byte>): nat {
    if msg == [] then 0 else msg[0] as nat % 0x40
  }

  /** The receiver undoes the framing and the run-length encoding. Coredumps, which are run-length encoded,
    * events, logs and custom data recordings are told apart by the first byte. */
  lemma UnframeWire(source: nat, stored: seq<byte>)
    requires source < P.NUM_SOURCES
    ensures Unframe(P.Wire(source, stored)) == Some(stored)
    ensures P.Wire(source, stored)[0] == [0x81, 0x02, 0x03, 0x04][source] && TypeOf(P.Wire(source, stored)) == source + 1
  {
    hide RleSpec.Decode, RleSpec.Encode;
    RleSpec.RoundTrip(stored);
    assert P.Wire(source, stored)[1..] == if P.UsesRle(source) then RleSpec.Encode(stored) else stored;
  }

  // ---- The invariant ----

  /** What the transport and the receiver have of the message that is being sent. */
  ghost predicate InStep(w: World)
    requires P.Valid(w.device)
  {
    match w.device.active
    case None => w.open == []
    case Some(a) =>
      var msg := P.Sent(w.device);
      if a.multiCall then
        |w.open| == Produced(msg, a.offset, false) && w.open <= SingleChunk(msg)
      else
        w.open == [] && UpToDate(w.assembly, msg, a.offset)
  }

  /** The receiver has one message for every deleted one, in the same order. */
  ghost predicate AllArrived(received: seq<seq<byte>>, deleted: seq<Message>) {
    && |received| == |deleted|
    && forall i :: 0 <= i < |deleted| ==>
         deleted[i].source < P.NUM_SOURCES && received[i] == P.Wire(deleted[i].source, deleted[i].stored)
  }

  /** The messages of one source, in order. */
  function From(source: nat, messages: seq<Message>): seq<seq<byte>> {
    if messages == [] then []
    else
      var m := messages[|messages| - 1];
      From(source, messages[..|messages| - 1]) + if m.source == source then [m.stored] else []
  }

  /** Every message that was stored in a source has been deleted or is still there, in order. */
  ghost predicate NothingLost(w: World) {
    forall i :: 0 <= i < P.NUM_SOURCES ==>
      From(i, w.stored) == From(i, w.deleted) + w.device.queues[i]
  }

  ghost predicate Invariant(w: World) {
    && P.Valid(w.device)
    && InStep(w)
    && AllArrived(w.received, w.deleted)
    && NothingLost(w)
  }

  lemma FromSnoc(source: nat, messages: seq<Message>, m: Message)
    ensures From(source, messages + [m]) == From(source, messages) + if m.source == source then [m.stored] else []
  {
    assert (messages + [m])[..|messages|] == messages;
  }

  // ---- Every step keeps it ----

  lemma BeginKeeps(w: World, multiCall: bool)
    requires Invariant(w)
    ensures Invariant(Step(w, Begin(multiCall)))
  {
    hide P.Wire, UpToDate, SingleChunk, AllArrived, NothingLost, P.SourceWithData;
    var d := P.Begin(w.device, multiCall);
    assert d.queues == w.device.queues && w.(device := d).device == d;
    NothingLostInQueues(w, w.(device := d));
    if w.device.active.None? && d.active.Some? {
      AtStart(w.assembly, P.Sent(d));
    }
  }

  lemma AtStart(a: Assembly, msg: seq<byte>)
    ensures UpToDate(a, msg, 0) && Produced(msg, 0, false) == 0 && [] <= SingleChunk(msg)
  {
  }

  lemma NothingLostInQueues(v: World, w: World)
    requires NothingLost(v) && w.device.queues == v.device.queues && w.stored == v.stored && w.deleted == v.deleted
    ensures NothingLost(w)
  {
    hide From;
  }

  lemma AbortKeeps(w: World)
    requires Invariant(w)
    ensures Invariant(Step(w, Abort))
  {
    hide AllArrived;
    NothingLostInQueues(w, Step(w, Abort));
  }

  lemma SetActiveSourcesKeeps(w: World, enabled: set<nat>)
    requires Invariant(w)
    ensures Invariant(Step(w, SetActiveSources(enabled)))
  {
    hide AllArrived;
    NothingLostInQueues(w, Step(w, SetActiveSources(enabled)));
  }

  lemma StoreKeeps(w: World, source: nat, stored: seq<byte>)
    requires Invariant(w) && Allowed(Store(source, stored))
    ensures Invariant(Step(w, Store(source, stored)))
  {
    hide AllArrived, P.Wire, UpToDate, SingleChunk, Produced;
    var v := Step(w, Store(source, stored));
    assert NothingLost(v) by {
      forall i | 0 <= i < P.NUM_SOURCES
        ensures From(i, v.stored) == From(i, v.deleted) + v.device.queues[i]
      {
        FromSnoc(i, w.stored, Message(source, stored));
      }
    }
  }

  /** The call that finishes a message gives the receiver the whole message. */
  lemma FinishKeeps(w: World, space: nat)
    requires Invariant(w)
    requires var r := P.GetNext(w.device, space); w.device.active.Some? && r.state.active.None?
    ensures Invariant(Step(w, GetNext(space)))
  {
    hide P.Wire, UpToDate, SingleChunk, Produced, NextChunk, Accept;
    var v := Step(w, GetNext(space));
    var a, msg := w.device.active.value, P.Sent(w.device);
    var m := Sending(w.device);
    P.WireLength(a.source, m.stored);
    LastBytes(w, space);
    assert v.received == w.received + [msg];
    assert NothingLost(v) by {
      forall i | 0 <= i < P.NUM_SOURCES
        ensures From(i, v.stored) == From(i, v.deleted) + v.device.queues[i]
      {
        FromSnoc(i, w.deleted, m);
        if i == a.source {
          assert w.device.queues[i] == [m.stored] + v.device.queues[i];
        }
      }
    }
  }

  lemma LastBytes(w: World, space: nat)
    requires P.Valid(w.device) && InStep(w) && w.device.active.Some?
    requires space >= MIN_CHUNK_BUF_LEN && P.GetNext(w.device, space).state.active.None?
    ensures Accept(w.assembly, w.open + P.GetNext(w.device, space).bytes) == Complete(P.Sent(w.device))
  {
    hide P.Wire, UpToDate, SingleChunk, Produced, NextChunk, Accept;
    var a, msg := w.device.active.value, P.Sent(w.device);
    P.WireLength(a.source, w.device.queues[a.source][0]);
    if a.multiCall {
      MultiCallOutput(msg, a.offset, space);
      var c := NextChunk(msg, a.offset, space, true);
      AllProduced(msg, a.offset + c.taken);
      JoinPrefix(SingleChunk(msg), w.open, c.bytes);
      AcceptSingleChunk(w.assembly, msg);
    } else {
      AcceptOutput(w.assembly, msg, a.offset, space);
      assert w.open + P.GetNext(w.device, space).bytes == P.GetNext(w.device, space).bytes;
    }
  }

  lemma AllProduced(msg: seq<byte>, offset: nat)
    ensures Produced(msg, offset, true) == |SingleChunk(msg)|
  {
  }

  lemma JoinPrefix(s: seq<byte>, open: seq<byte>, bytes: seq<byte>)
    requires open <= s && |open| + |bytes| <= |s| && bytes == s[|open|..|open| + |bytes|]
    ensures open + bytes <= s
    ensures |open| + |bytes| == |s| ==> open + bytes == s
  {
  }

  /** A call that leaves more to send keeps the receiver up to date. */
  lemma MoreKeeps(w: World, space: nat)
    requires Invariant(w)
    requires var r := P.GetNext(w.device, space); w.device.active.None? || r.state.active.Some?
    ensures Invariant(Step(w, GetNext(space)))
  {
    hide P.Wire, UpToDate, SingleChunk, Produced, NextChunk, Accept, AllArrived;
    var v := Step(w, GetNext(space));
    assert w.received + [] == w.received && w.deleted + [] == w.deleted;
    if w.device.active.Some? && space >= MIN_CHUNK_BUF_LEN {
      var a, msg := w.device.active.value, P.Sent(w.device);
      P.WireLength(a.source, w.device.queues[a.source][0]);
      var c := NextChunk(msg, a.offset, space, a.multiCall);
      if a.multiCall {
        MultiCallOutput(msg, a.offset, space);
        JoinPrefix(SingleChunk(msg), w.open, c.bytes);
      } else {
        AcceptOutput(w.assembly, msg, a.offset, space);
        assert w.open + c.bytes == c.bytes;
        StillUpToDate(v.assembly, msg, a.offset + c.taken);
      }
    }
    NothingLostInQueues(w, v);
  }

  lemma StepKeeps(w: World, op: Op)
    requires Invariant(w) && Allowed(op)
    ensures Invariant(Step(w, op))
  {
    hide Invariant, Step;
    match op
    case Begin(multiCall) => BeginKeeps(w, multiCall);
    case Abort => AbortKeeps(w);
    case SetActiveSources(enabled) => SetActiveSourcesKeeps(w, enabled);
    case Store(source, stored) => StoreKeeps(w, source, stored);
    case GetNext(space) => GetNextKeeps(w, space);
  }

  lemma GetNextKeeps(w: World, space: nat)
    requires Invariant(w)
    ensures Invariant(Step(w, GetNext(space)))
  {
    hide Step, InStep, AllArrived, NothingLost, P.GetNext;
    if w.device.active.Some? && P.GetNext(w.device, space).state.active.None? {
      FinishKeeps(w, space);
    } else {
      MoreKeeps(w, space);
    }
  }

  // ---- Whole runs ----

  ghost function Run(w: World, ops: seq<Op>): World
    requires Invariant(w) && forall i :: 0 <= i < |ops| ==> Allowed(ops[i])
    ensures Invariant(Run(w, ops))
    decreases |ops|
  {
    if ops == [] then w
    else
      StepKeeps(w, ops[0]);
      Run(Step(w, ops[0]), ops[1..])
  }

  /** A device without messages, and a receiver in any state. */
  ghost predicate Initial(w: World) {
    && w.device.queues == [[], [], [], []] && w.device.active.None?
    && w.open == [] && w.received == [] && w.deleted == [] && w.stored == []
  }

  /** The main result. After any run of begins, reads into buffers of any size, aborts, changes of
    * the active sources and stores, in either mode, the receiver has decoded exactly the messages
    * that the device has deleted, in the same order and each with its type byte, and every stored message
    * is either among them or still in its queue, in order. */
  lemma ExactlyTheDeletedMessagesArrive(w: World, ops: seq<Op>)
    requires Initial(w) && forall i :: 0 <= i < |ops| ==> Allowed(ops[i])
    ensures Invariant(w)
    ensures var v := Run(w, ops);
            && |v.received| == |v.deleted|
            && (forall k :: 0 <= k < |v.deleted| ==>
                  v.deleted[k].source < P.NUM_SOURCES &&
                  v.received[k] != [] && v.received[k][0] == [0x81, 0x02, 0x03, 0x04][v.deleted[k].source] &&
                  Unframe(v.received[k]) == Some(v.deleted[k].stored))
            && (forall i :: 0 <= i < P.NUM_SOURCES ==>
                  From(i, v.stored) == From(i, v.deleted) + v.device.queues[i])
  {
    hide Unframe, P.Wire;
    var v := Run(w, ops);
    forall k | 0 <= k < |v.deleted|
      ensures v.deleted[k].source < P.NUM_SOURCES
      ensures v.received[k] != [] && v.received[k][0] == [0x81, 0x02, 0x03, 0x04][v.deleted[k].source]
      ensures Unframe(v.received[k]) == Some(v.deleted[k].stored)
    {
      UnframeWire(v.deleted[k].source, v.deleted[k].stored);
    }
  }

  /** An aborted message is not deleted, and when its source is still the first one with data, the
    * next message that is loaded is the same, from its first byte on. */
  lemma AbortRestartsTheMessage(s: P.State, multiCall: bool)
    requires P.Valid(s) && s.active.Some?
    ensures P.Abort(s).queues == s.queues
    ensures P.SourceWithData(s, 0) == Some(s.active.value.source) ==>
              var t := P.Begin(P.Abort(s), multiCall);
              t.active == Some(P.Active(s.active.value.source, 0, multiCall)) && P.Valid(t) && P.Sent(t) == P.Sent(s)
  {
    SameSource(s, P.Abort(s), 0);
  }

  lemma {:induction false} SameSource(s: P.State, t: P.State, i: nat)
    requires i <= P.NUM_SOURCES && s.queues == t.queues && s.enabled == t.enabled
    ensures P.SourceWithData(s, i) == P.SourceWithData(t, i)
    decreases P.NUM_SOURCES - i
  {
    if i < P.NUM_SOURCES {
      SameSource(s, t, i + 1);
    }
  }

  // ---- Draining ----

  /** The operations of which `P.Drain` consists. */
  ghost function DrainOps(s: P.State, space: nat): (ops: seq<Op>)
    requires P.Valid(s)
    ensures forall i :: 0 <= i < |ops| ==> Allowed(ops[i])
    decreases P.StoredMessages(s), P.BytesLeft(s)
  {
    var r := P.GetChunk(s, space);
    if r.status != P.EndOfChunk then [Begin(false), GetNext(space)]
    else
      P.GetChunkMakesProgress(s, space);
      [Begin(false), GetNext(space)] + DrainOps(r.state, space)
  }

  lemma RunTwo(w: World, a: Op, b: Op, ops: seq<Op>)
    requires Invariant(w) && Allowed(a) && Allowed(b) && forall i :: 0 <= i < |ops| ==> Allowed(ops[i])
    ensures Invariant(Step(w, a)) && Invariant(Step(Step(w, a), b))
    ensures Run(w, [a, b] + ops) == Run(Step(Step(w, a), b), ops)
  {
    hide Step, InStep, AllArrived, NothingLost, P.Valid;
    StepKeeps(w, a);
    StepKeeps(Step(w, a), b);
    assert ([a, b] + ops)[1..] == [b] + ops;
    assert ([b] + ops)[1..] == ops;
  }

  lemma GetChunkIsTwoSteps(w: World, space: nat)
    requires Invariant(w)
    ensures Invariant(Step(w, Begin(false)))
    ensures Step(Step(w, Begin(false)), GetNext(space)).device == P.GetChunk(w.device, space).state
    ensures Step(Step(w, Begin(false)), GetNext(space)).stored == w.stored
  {
    hide P.GetNext, P.Begin, InStep, AllArrived, NothingLost;
    StepKeeps(w, Begin(false));
  }

  lemma {:induction false} DrainIsRun(w: World, space: nat)
    requires Invariant(w)
    ensures var v := Run(w, DrainOps(w.device, space));
            v.device == P.Drain(w.device, space).state && v.stored == w.stored
    decreases P.StoredMessages(w.device), P.BytesLeft(w.device)
  {
    hide Step, P.GetChunk, InStep, AllArrived, NothingLost, P.Valid;
    GetChunkIsTwoSteps(w, space);
    var r := P.GetChunk(w.device, space);
    var v := Step(Step(w, Begin(false)), GetNext(space));
    if r.status != P.EndOfChunk {
      RunTwo(w, Begin(false), GetNext(space), []);
      assert [Begin(false), GetNext(space)] + [] == [Begin(false), GetNext(space)];
    } else {
      P.GetChunkMakesProgress(w.device, space);
      RunTwo(w, Begin(false), GetNext(space), DrainOps(r.state, space));
      DrainIsRun(v, space);
    }
  }

  /** Draining delivers every message that was ever stored in an active source. */
  lemma DrainDeliversEverything(w: World, space: nat)
    requires Invariant(w) && space >= MIN_CHUNK_BUF_LEN
    requires w.device.active.Some? ==> !w.device.active.value.multiCall
    ensures var v := Run(w, DrainOps(w.device, space));
            && AllArrived(v.received, v.deleted)
            && forall i :: 0 <= i < P.NUM_SOURCES && i in w.device.enabled ==> From(i, v.deleted) == From(i, w.stored)
  {
    hide P.Drain, P.Valid, Step;
    DrainIsRun(w, space);
    P.DrainEmptiesActiveSources(w.device, space);
  }

  // ---- What a drain exports ----

  function MessagesOf(source: nat, queue: seq<seq<byte>>): seq<Message> {
    seq(|queue|, j requires 0 <= j < |queue| => Message(source, queue[j]))
  }

  /** The messages of the active sources from `i` on, in order of priority. */
  function Waiting(s: P.State, i: nat): seq<Message>
    requires i <= P.NUM_SOURCES
    decreases P.NUM_SOURCES - i
  {
    if i == P.NUM_SOURCES then []
    else (if i in s.enabled then MessagesOf(i, s.queues[i]) else []) + Waiting(s, i + 1)
  }

  /** The device without the message that is being sent. */
  ghost function Popped(s: P.State): P.State
    requires P.Valid(s) && s.active.Some?
  {
    var i := s.active.value.source;
    s.(queues := s.queues[i := s.queues[i][1..]], active := None)
  }

  /** The message at hand, and then those of the active sources. */
  ghost function Pending(s: P.State): seq<Message>
    requires P.Valid(s)
  {
    if s.active.None? then Waiting(s, 0) else [Sending(s)] + Waiting(Popped(s), 0)
  }

  /** A receiver that gets these chunks: what it has in the end, and the messages it has put together. */
  function ReceiveAll(a: Assembly, chunks: seq<seq<byte>>): (Assembly, seq<seq<byte>>)
    decreases |chunks|
  {
    if chunks == [] then (a, [])
    else
      var b := Accept(a, chunks[0]);
      var (c, received) := ReceiveAll(b, chunks[1..]);
      (c, (if b.Complete? then [b.msg] else []) + received)
  }

  lemma ReceiveFirst(a: Assembly, chunk: seq<byte>, rest: seq<seq<byte>>)
    ensures var b := Accept(a, chunk);
            ReceiveAll(a, [chunk] + rest).1 == (if b.Complete? then [b.msg] else []) + ReceiveAll(b, rest).1
  {
    hide Accept;
    assert ([chunk] + rest)[1..] == rest;
  }

  lemma {:induction false} WaitingElsewhere(s: P.State, t: P.State, i: nat)
    requires i <= P.NUM_SOURCES && s.enabled == t.enabled
    requires forall j :: i <= j < P.NUM_SOURCES ==> s.queues[j] == t.queues[j]
    ensures Waiting(s, i) == Waiting(t, i)
    decreases P.NUM_SOURCES - i
  {
    if i < P.NUM_SOURCES {
      WaitingElsewhere(s, t, i + 1);
    }
  }

  /** What is waiting is the next message and what is waiting behind it. */
  lemma {:induction false} NextIsFirst(s: P.State, i: nat)
    requires i <= P.NUM_SOURCES
    ensures match P.SourceWithData(s, i)
            case None => Waiting(s, i) == []
            case Some(k) => Waiting(s, i) == [Message(k, s.queues[k][0])] +
                                             Waiting(s.(queues := s.queues[k := s.queues[k][1..]]), i)
    decreases P.NUM_SOURCES - i
  {
    hide Waiting, MessagesOf;
    if i == P.NUM_SOURCES {
      NothingWaits(s);
    } else {
      if i in s.enabled && s.queues[i] != [] {
        FirstOfSource(s, i);
      } else {
        NextIsFirst(s, i + 1);
        NoneOfSource(s, i);
        var next := P.SourceWithData(s, i + 1);
        if next.Some? {
          NoneOfSource(s.(queues := s.queues[next.value := s.queues[next.value][1..]]), i);
        }
      }
    }
  }

  lemma NothingWaits(s: P.State)
    ensures Waiting(s, P.NUM_SOURCES) == []
  {
  }

  lemma NoneOfSource(s: P.State, i: nat)
    requires i < P.NUM_SOURCES && (i !in s.enabled || s.queues[i] == [])
    ensures Waiting(s, i) == Waiting(s, i + 1)
  {
    assert MessagesOf(i, []) == [];
  }

  lemma FirstOfSource(s: P.State, i: nat)
    requires i < P.NUM_SOURCES && i in s.enabled && s.queues[i] != []
    ensures Waiting(s, i) == [Message(i, s.queues[i][0])] +
                             Waiting(s.(queues := s.queues[i := s.queues[i][1..]]), i)
  {
    var q := s.queues[i];
    var t := s.(queues := s.queues[i := q[1..]]);
    WaitingElsewhere(s, t, i + 1);
    assert MessagesOf(i, q) == [Message(i, q[0])] + MessagesOf(i, q[1..]);
    Regroup([Message(i, q[0])], MessagesOf(i, q[1..]), Waiting(s, i + 1));
  }

  lemma BeginKeepsPending(s: P.State)
    requires P.Valid(s)
    ensures P.Valid(P.Begin(s, false)) && Pending(P.Begin(s, false)) == Pending(s)
  {
    hide P.Wire, P.SourceWithData, Waiting;
    P.BeginIsValid(s, false);
    NextIsFirst(s, 0);
    if s.active.None? && P.SourceWithData(s, 0).Some? {
      var t := P.Begin(s, false);
      WaitingElsewhere(Popped(t), s.(queues := Popped(t).queues), 0);
    }
  }

  /** One chunk of a drain: what was pending still is, or was received. */
  lemma GetChunkSends(a: Assembly, s: P.State, space: nat)
    requires P.Valid(s) && space >= MIN_CHUNK_BUF_LEN && IsUpToDate(a, s)
    ensures var r := P.GetChunk(s, space);
            && P.Valid(r.state)
            && (r.status != P.EndOfChunk ==> Pending(s) == [])
            && (r.status == P.EndOfChunk ==>
                  var b := Accept(a, r.bytes);
                  && IsUpToDate(b, r.state)
                  && if b.Complete? then Pending(s) != [] && Pending(r.state) == Pending(s)[1..] &&
                                         b.msg == P.Wire(Pending(s)[0].source, Pending(s)[0].stored) &&
                                         Pending(s)[0].source < P.NUM_SOURCES
                     else Pending(r.state) == Pending(s))
  {
    hide P.Wire, UpToDate, NextChunk, Accept, Waiting, P.SourceWithData;
    BeginKeepsPending(s);
    NextIsFirst(s, 0);
    var t := P.Begin(s, false);
    P.GetNextIsValid(t, space);
    if t.active.Some? {
      var i, msg := t.active.value, P.Sent(t);
      P.WireLength(i.source, t.queues[i.source][0]);
      if s.active.None? {
        AtStart(a, msg);
      }
      AcceptOutput(a, msg, i.offset, space);
      NextChunkMakesProgress(msg, i.offset, space, false);
      var c := NextChunk(msg, i.offset, space, false);
      if c.more {
        StillUpToDate(Accept(a, c.bytes), msg, i.offset + c.taken);
        var r := P.GetChunk(s, space).state;
        WaitingElsewhere(Popped(t), Popped(r), 0);
      }
    }
  }

  /** The receiver has what was sent so far of the message at hand, which is sent in single-call mode. */
  ghost predicate IsUpToDate(a: Assembly, s: P.State)
    requires P.Valid(s)
  {
    s.active.Some? ==> !s.active.value.multiCall && UpToDate(a, P.Sent(s), s.active.value.offset)
  }

  lemma ArrivedBefore(msg: seq<byte>, received: seq<seq<byte>>, sent: seq<Message>)
    requires sent != [] && sent[0].source < P.NUM_SOURCES && msg == P.Wire(sent[0].source, sent[0].stored)
    requires AllArrived(received, sent[1..])
    ensures AllArrived([msg] + received, sent)
  {
    hide P.Wire;
    forall i | 0 < i < |sent|
      ensures sent[i].source < P.NUM_SOURCES && ([msg] + received)[i] == P.Wire(sent[i].source, sent[i].stored)
    {
      assert sent[i] == sent[1..][i - 1];
    }
  }

  lemma DrainFirst(s: P.State, space: nat)
    requires P.Valid(s)
    ensures var r := P.GetChunk(s, space);
            if r.status != P.EndOfChunk then P.Drain(s, space).chunks == []
            else P.Valid(r.state) && P.Drain(s, space).chunks == [r.bytes] + P.Drain(r.state, space).chunks
  {
    hide P.GetChunk, P.Valid;
    if P.GetChunk(s, space).status == P.EndOfChunk {
      P.GetChunkMakesProgress(s, space);
    }
  }

  lemma {:induction false} DrainSends(a: Assembly, s: P.State, space: nat)
    requires P.Valid(s) && space >= MIN_CHUNK_BUF_LEN && IsUpToDate(a, s)
    ensures AllArrived(ReceiveAll(a, P.Drain(s, space).chunks).1, Pending(s))
    decreases P.StoredMessages(s), P.BytesLeft(s)
  {
    hide P.GetChunk, P.Valid, IsUpToDate, P.Wire, Accept, Pending, AllArrived, P.Drain, ReceiveAll;
    var r := P.GetChunk(s, space);
    GetChunkSends(a, s, space);
    DrainFirst(s, space);
    if r.status == P.EndOfChunk {
      P.GetChunkMakesProgress(s, space);
      var b, rest := Accept(a, r.bytes), P.Drain(r.state, space).chunks;
      DrainSends(b, r.state, space);
      ReceiveFirst(a, r.bytes, rest);
      var received := ReceiveAll(b, rest).1;
      if b.Complete? {
        ArrivedBefore(b.msg, received, Pending(s));
      } else {
        assert [] + received == received;
      }
    } else {
      NothingReceived(a);
    }
  }

  lemma NothingReceived(a: Assembly)
    ensures ReceiveAll(a, []) == (a, []) && AllArrived([], [])
  {
  }

  /** The chunks that a drain exports, taken one after the other by a receiver that has what was sent so far,
    * are put together to the message at hand and then to all messages of the active sources, in order of
    * priority and of storing: each with its type byte, and with the stored bytes behind it. */
  lemma DrainExportsEverything(w: World, space: nat)
    requires Invariant(w) && space >= 9
    requires w.device.active.Some? ==> !w.device.active.value.multiCall
    ensures var received, sent := ReceiveAll(w.assembly, P.Drain(w.device, space).chunks).1, Pending(w.device);
            && |received| == |sent|
            && forall k :: 0 <= k < |sent| ==>
                 && sent[k].source < P.NUM_SOURCES && received[k] != []
                 && received[k][0] == [0x81, 0x02, 0x03, 0x04][sent[k].source]
                 && Unframe(received[k]) == Some(sent[k].stored)
  {
    hide P.Drain, P.Valid, Unframe, P.Wire, Pending, UpToDate, ReceiveAll;
    assert IsUpToDate(w.assembly, w.device);
    DrainSends(w.assembly, w.device, space);
    var received, sent := ReceiveAll(w.assembly, P.Drain(w.device, space).chunks).1, Pending(w.device);
    forall k | 0 <= k < |sent|
      ensures sent[k].source < P.NUM_SOURCES && received[k] != []
      ensures received[k][0] == [0x81, 0x02, 0x03, 0x04][sent[k].source]
      ensures Unframe(received[k]) == Some(sent[k].stored)
    {
      UnframeWire(sent[k].source, sent[k].stored);
    }
  }
}
