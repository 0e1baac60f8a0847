/** What the packetizer does, as steps of a state machine, and what that means for the messages: the
  * receiver gets exactly the messages that the device deletes, and no message is ever lost
  * (components/core/src/memfault_data_packetizer.c). */
module PacketizerSpec {
  import opened Bytes
  import opened Chunking
  import opened MessageReader
  import RleSpec

  /** Coredumps, events, logs and custom data recordings, in order of priority. */
  const NUM_SOURCES := 4

  /** Only coredumps are run-length encoded. */
  predicate UsesRle(source: nat) {
    source == 0
  }

  /** The message types are numbered from 1 on. */
  function TypeOf(source: nat): MessageType
    requires source < NUM_SOURCES
  {
    source + 1
  }

  function Wire(source: nat, stored: seq<byte>): (s: seq<byte>)
    requires source < NUM_SOURCES
    ensures |s| >= 1
  {
    Framed(TypeOf(source), UsesRle(source), stored)
  }

  /** Messages the packetizer can send: not empty, and with a length that fits into 31 bits. */
  predicate Sendable(stored: seq<byte>) {
    0 < |stored| < INT32_LIMIT
  }

  lemma WireLength(source: nat, stored: seq<byte>)
    requires source < NUM_SOURCES && Sendable(stored)
    ensures |Wire(source, stored)| + 3 < UINT32_LIMIT
  {
    hide RleSpec.Encode;
    RleSpec.ExpansionBound(stored);
  }

  type Queues = q: seq<seq<seq<byte>>> | |q| == NUM_SOURCES witness [[], [], [], []]

  /** The message being sent is the first one in the queue of `source`. */
  datatype Active = Active(source: nat, offset: nat, multiCall: bool)

  datatype State = State(queues: Queues, enabled: set<nat>, active: Option<Active>)

  ghost predicate Valid(s: State) {
    && (forall i, j :: 0 <= i < NUM_SOURCES && 0 <= j < |s.queues[i]| ==> Sendable(s.queues[i][j]))
    && (s.active.Some? ==>
          var a := s.active.value;
          a.source < NUM_SOURCES && s.queues[a.source] != [] && a.offset <= |Wire(a.source, s.queues[a.source][0])|)
  }

  /** The message that is being sent, as it is on the wire. */
  function Sent(s: State): seq<byte>
    requires s.active.Some? && s.active.value.source < NUM_SOURCES && s.queues[s.active.value.source] != []
  {
    Wire(s.active.value.source, s.queues[s.active.value.source][0])
  }

  /** The first enabled source, from `i` on, that has a message. */
  function SourceWithData(s: State, i: nat): (r: Option<nat>)
    requires i <= NUM_SOURCES
    ensures r.Some? ==> i <= r.value < NUM_SOURCES && r.value in s.enabled && s.queues[r.value] != []
    ensures var end := if r.Some? then r.value else NUM_SOURCES;
            forall j :: i <= j < end ==> j !in s.enabled || s.queues[j] == []
    decreases NUM_SOURCES - i
  {
    if i == NUM_SOURCES then None
    else if i in s.enabled && s.queues[i] != [] then Some(i)
    else SourceWithData(s, i + 1)
  }

  /** Sources are asked in order of priority. */
  lemma SourceIsFirst(s: State)
    ensures forall i: nat :: i < NUM_SOURCES ==>
              (SourceWithData(s, 0) == Some(i) <==>
               i in s.enabled && s.queues[i] != [] && forall j :: 0 <= j < i ==> j !in s.enabled || s.queues[j] == [])
  {
    hide SourceWithData;
  }

  // ---- Steps ----

  /** Loads a message unless one is being sent already. */
  function Begin(s: State, multiCall: bool): State {
    if s.active.Some? then s
    else
      match SourceWithData(s, 0)
      case None => s
      case Some(i) => s.(active := Some(Active(i, 0, multiCall)))
  }

  datatype Status = NoMoreData | EndOfChunk | MoreDataForChunk

  datatype NextResult = NextResult(state: State, status: Status, bytes: seq<byte>)

  /** Sends the next bytes of the loaded message, and deletes the message with its last bytes. */
  function GetNext(s: State, space: nat): NextResult
    requires Valid(s)
  {
    if s.active.None? || space < MIN_CHUNK_BUF_LEN then NextResult(s, NoMoreData, [])
    else
      var a := s.active.value;
      WireLength(a.source, s.queues[a.source][0]);
      var c := NextChunk(Sent(s), a.offset, space, a.multiCall);
      if c.more then
        NextResult(s.(active := Some(a.(offset := a.offset + c.taken))),
                   if a.multiCall then MoreDataForChunk else EndOfChunk, c.bytes)
      else
        NextResult(s.(queues := s.queues[a.source := s.queues[a.source][1..]], active := None), EndOfChunk, c.bytes)
  }

  function Abort(s: State): State {
    s.(active := None)
  }

  function SetActiveSources(s: State, enabled: set<nat>): State {
    Abort(s).(enabled := enabled)
  }

  /** A producer stores another message. */
  function Store(s: State, source: nat, stored: seq<byte>): State
    requires source < NUM_SOURCES
  {
    s.(queues := s.queues[source := s.queues[source] + [stored]])
  }

  lemma EmptyIsValid(enabled: set<nat>)
    ensures Valid(State([[], [], [], []], enabled, None))
  {
  }

  lemma StoreIsValid(s: State, source: nat, stored: seq<byte>)
    requires Valid(s) && source < NUM_SOURCES && Sendable(stored)
    ensures Valid(Store(s, source, stored))
  {
    hide Wire;
  }

  lemma PopIsValid(s: State, source: nat)
    requires Valid(s) && source < NUM_SOURCES && s.queues[source] != []
    ensures Valid(s.(queues := s.queues[source := s.queues[source][1..]], active := None))
  {
  }

  lemma GetNextIsValid(s: State, space: nat)
    requires Valid(s)
    ensures Valid(GetNext(s, space).state)
  {
    hide Wire, NextChunk;
    if s.active.Some? {
      WireLength(s.active.value.source, s.queues[s.active.value.source][0]);
    }
  }

  lemma NextIsSendable(s: State, i: nat)
    requires Valid(s) && i < NUM_SOURCES && s.queues[i] != []
    ensures Sendable(s.queues[i][0])
  {
    hide Wire, Sendable;
  }

  lemma BeginIsValid(s: State, multiCall: bool)
    requires Valid(s)
    ensures Valid(Begin(s, multiCall))
  {
    hide Wire;
  }

  // ---- Draining ----

  /** The simple interface: loads a message if necessary and sends its next chunk. */
  function GetChunk(s: State, space: nat): NextResult
    requires Valid(s)
  {
    BeginIsValid(s, false);
    GetNext(Begin(s, false), space)
  }

  function StoredMessages(s: State): nat {
    |s.queues[0]| + |s.queues[1]| + |s.queues[2]| + |s.queues[3]|
  }

  /** What is left to send of the message at hand; more than that of any message when there is none. */
  function BytesLeft(s: State): nat
    requires Valid(s)
  {
    if s.active.None? then UINT32_LIMIT else |Sent(s)| - s.active.value.offset
  }

  /** Every chunk finishes a message or leaves fewer bytes of it. */
  lemma GetChunkMakesProgress(s: State, space: nat)
    requires Valid(s) && GetChunk(s, space).status == EndOfChunk
    ensures var t := GetChunk(s, space).state;
            && Valid(t)
            && (StoredMessages(t) < StoredMessages(s) ||
                (StoredMessages(t) == StoredMessages(s) && BytesLeft(t) < BytesLeft(s)))
  {
    hide Wire, NextChunk;
    var b := Begin(s, false);
    BeginIsValid(s, false);
    GetNextIsValid(b, space);
    var a := b.active.value;
    WireLength(a.source, b.queues[a.source][0]);
    NextChunkMakesProgress(Sent(b), a.offset, space, a.multiCall);
  }

  datatype Drained = Drained(state: State, chunks: seq<seq<byte>>)

  /** Sends chunks into buffers of `space` bytes as long as there are any. */
  function Drain(s: State, space: nat): Drained
    requires Valid(s)
    decreases StoredMessages(s), BytesLeft(s)
  {
    var r := GetChunk(s, space);
    if r.status != EndOfChunk then Drained(r.state, [])
    else
      GetChunkMakesProgress(s, space);
      var rest := Drain(r.state, space);
      Drained(rest.state, [r.bytes] + rest.chunks)
  }

  /** Draining leaves no message in any active source, unless a message was loaded in multi-call mode. */
  lemma {:induction false} DrainEmptiesActiveSources(s: State, space: nat)
    requires Valid(s) && space >= MIN_CHUNK_BUF_LEN
    requires s.active.Some? ==> !s.active.value.multiCall
    ensures var d := Drain(s, space).state;
            && d.active.None? && d.enabled == s.enabled
            && forall i :: 0 <= i < NUM_SOURCES && i in s.enabled ==> d.queues[i] == []
    decreases StoredMessages(s), BytesLeft(s)
  {
    hide Wire, NextChunk;
    var r := GetChunk(s, space);
    if r.status == EndOfChunk {
      GetChunkMakesProgress(s, space);
      DrainEmptiesActiveSources(r.state, space);
    }
  }
}
