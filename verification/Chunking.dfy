/** The chunk format: how a message is cut into chunks, and how the receiver puts it together again
  * (components/util/src/memfault_chunk_transport.c).
  *
  * A message that fits into one chunk is sent as a header byte, the message and its checksum. A
  * longer one is sent as an INIT chunk, which announces the length of the message, and CONTINUATION
  * chunks, which say at which offset they carry on; the last one ends with the checksum. In
  * multi-call mode there is a single chunk, but it may take several calls to produce it. */
module Chunking {
  import opened Bytes
  import V = Varint
  import C = Crc16

  const MIN_CHUNK_BUF_LEN := 9
  const CRC_LENGTH := 2

  // ---- The sender ----

  function HeaderByte(continuation: bool, moreData: bool): byte {
    (if continuation then 0x80 else 0x08) + (if moreData then 0x40 else 0)
  }

  /** The checksum as it is sent, low byte first. */
  function CrcBytes(crc: bv16): (s: seq<byte>)
    ensures |s| == CRC_LENGTH
  {
    [(crc & 0xff) as byte, ((crc >> 8) & 0xff) as byte]
  }

  function Checksum(msg: seq<byte>): (s: seq<byte>)
    ensures |s| == CRC_LENGTH
  {
    CrcBytes(C.Crc(C.INITIAL_VALUE, msg))
  }

  /** The whole message as one chunk. */
  function SingleChunk(msg: seq<byte>): (s: seq<byte>)
    ensures |s| == |msg| + 1 + CRC_LENGTH
  {
    [HeaderByte(false, false)] + msg + Checksum(msg)
  }

  /** What one call produces: the bytes, how much of the message is in them, whether there is more. */
  datatype Output = Output(bytes: seq<byte>, taken: nat, more: bool)

  /** The bytes in front of the message data of a chunk that starts at `offset`. */
  function Prefix(total: nat, offset: nat, moreData: bool): (s: seq<byte>)
    ensures 1 <= |s|
  {
    if offset == 0 then [HeaderByte(false, true)] + V.Encode(total)
    else [HeaderByte(true, moreData)] + V.Encode(offset)
  }

  lemma PrefixLength(total: nat, offset: nat, moreData: bool)
    requires offset <= total < UINT32_LIMIT
    ensures |Prefix(total, offset, moreData)| == |Prefix(total, offset, false)| <= 1 + V.MAX_U32_LENGTH
  {
    V.LengthBound(total);
    V.LengthBound(offset);
  }

  /** What a chunk consists of: the bytes in front, the number of message bytes, and the checksum
    * unless more is to come. */
  datatype Plan = Plan(lead: seq<byte>, taken: nat, more: bool)

  /** How the next chunk of a message of `total` bytes uses a buffer of `space` bytes. */
  function PlanChunk(total: nat, offset: nat, space: nat, multiCall: bool): (r: Plan)
    requires offset <= total && total + 3 < UINT32_LIMIT && space >= MIN_CHUNK_BUF_LEN
    ensures |r.lead| + r.taken + (if r.more then 0 else CRC_LENGTH) <= space && offset + r.taken <= total
  {
    PrefixLength(total, offset, true);
    PrefixLength(total, offset, false);
    if offset == 0 && total + 3 <= space then
      Plan([HeaderByte(false, false)], total, false)
    else if multiCall then
      var lead := if offset == 0 then [HeaderByte(false, false)] else [];
      var n := Min(space - |lead|, total - offset);
      Plan(lead, n, offset == 0 || space - n < CRC_LENGTH)
    else
      var room := space - |Prefix(total, offset, true)|;
      var n := Min(room, total - offset);
      var more := offset == 0 || room - n < CRC_LENGTH;
      Plan(Prefix(total, offset, more), n, more)
  }

  /** `n` bytes of message data, and the checksum unless there is more to come. */
  function Body(msg: seq<byte>, offset: nat, n: nat, more: bool): seq<byte>
    requires offset + n <= |msg|
  {
    msg[offset..offset + n] + (if more then [] else Checksum(msg))
  }

  /** The chunk that is sent next into a buffer of `space` bytes. */
  function NextChunk(msg: seq<byte>, offset: nat, space: nat, multiCall: bool): (r: Output)
    requires offset <= |msg| && |msg| + 3 < UINT32_LIMIT && space >= MIN_CHUNK_BUF_LEN
    ensures |r.bytes| <= space && offset + r.taken <= |msg|
  {
    var p := PlanChunk(|msg|, offset, space, multiCall);
    Output(p.lead + Body(msg, offset, p.taken, p.more), p.taken, p.more)
  }

  /** Every chunk but the last takes at least one byte of the message. */
  lemma NextChunkMakesProgress(msg: seq<byte>, offset: nat, space: nat, multiCall: bool)
    requires offset <= |msg| && |msg| + 3 < UINT32_LIMIT && space >= MIN_CHUNK_BUF_LEN
    ensures var r := NextChunk(msg, offset, space, multiCall);
            r.bytes != [] && if r.more then r.taken > 0 else offset + r.taken == |msg|
  {
    PrefixLength(|msg|, offset, true);
  }

  // ---- A whole message, whatever the buffers ----

  datatype Run = Run(outputs: seq<seq<byte>>, offset: nat, complete: bool)

  /** Calls with buffers of the given sizes, until the message is complete or there are no more
    * calls. A buffer that is too small gets nothing. */
  function Calls(msg: seq<byte>, offset: nat, multiCall: bool, sizes: seq<nat>): (r: Run)
    requires offset <= |msg| && |msg| + 3 < UINT32_LIMIT
    ensures offset <= r.offset <= |msg|
    ensures |r.outputs| <= |sizes|
    decreases |sizes|
  {
    if sizes == [] then Run([], offset, false)
    else if sizes[0] < MIN_CHUNK_BUF_LEN then Calls(msg, offset, multiCall, sizes[1..])
    else
      var c := NextChunk(msg, offset, sizes[0], multiCall);
      if !c.more then Run([c.bytes], offset + c.taken, true)
      else
        var rest := Calls(msg, offset + c.taken, multiCall, sizes[1..]);
        Run([c.bytes] + rest.outputs, rest.offset, rest.complete)
  }

  function UsableBuffers(sizes: seq<nat>): nat {
    if sizes == [] then 0
    else (if sizes[0] >= MIN_CHUNK_BUF_LEN then 1 else 0) + UsableBuffers(sizes[1..])
  }

  /** A message of n bytes is sent after at most n + 1 calls with buffers that are large enough. */
  lemma {:induction false} CallsTerminate(msg: seq<byte>, offset: nat, multiCall: bool, sizes: seq<nat>)
    requires offset <= |msg| && |msg| + 3 < UINT32_LIMIT
    requires UsableBuffers(sizes) > |msg| - offset
    ensures Calls(msg, offset, multiCall, sizes).complete
    decreases |sizes|
  {
    if sizes[0] >= MIN_CHUNK_BUF_LEN {
      NextChunkMakesProgress(msg, offset, sizes[0], multiCall);
      var c := NextChunk(msg, offset, sizes[0], multiCall);
      hide NextChunk;
      if c.more {
        CallsTerminate(msg, offset + c.taken, multiCall, sizes[1..]);
      }
    } else {
      CallsTerminate(msg, offset, multiCall, sizes[1..]);
    }
  }

  // ---- The receiver ----

  /** What a receiver has put together. */
  datatype Assembly =
    | Nothing
    | Partial(total: nat, data: seq<byte>)
    | Complete(msg: seq<byte>)
    | Invalid

  predicate IsContinuation(header: byte) {
    header / 0x80 == 1
  }

  predicate HasMoreData(header: byte) {
    header / 0x40 % 2 == 1
  }

  /** Bits 3 to 5 of an INIT header say that the checksum follows the last byte of the message. */
  predicate ChecksumAtEnd(header: byte) {
    header / 0x08 % 8 == 1
  }

  /** The checksum is a number of two bytes, the low one first. */
  predicate IsChecksum(msg: seq<byte>, checksum: seq<byte>)
    requires |checksum| == 2
  {
    checksum[0] as nat + 0x100 * checksum[1] as nat == C.Crc(0, msg) as nat
  }

  function AcceptChecked(msg: seq<byte>, checksum: seq<byte>): Assembly
    requires |checksum| == 2
  {
    if IsChecksum(msg, checksum) then Complete(msg) else Invalid
  }

  function AcceptInit(chunk: seq<byte>): Assembly
    requires chunk != []
  {
    var rest := chunk[1..];
    if !ChecksumAtEnd(chunk[0]) then Invalid
    else if HasMoreData(chunk[0]) then
      match V.Decode(rest)
      case Malformed => Invalid
      case Decoded(total, n) => if |rest| - n > total then Invalid else Partial(total, rest[n..])
    else if |rest| < 2 then Invalid
    else AcceptChecked(rest[..|rest| - 2], rest[|rest| - 2..])
  }

  /** Bytes after the checksum of the last chunk of several are spare buffer space, and ignored. */
  function AcceptContinuation(total: nat, data: seq<byte>, chunk: seq<byte>): Assembly
    requires chunk != []
  {
    match V.Decode(chunk[1..])
    case Malformed => Invalid
    case Decoded(offset, n) =>
      var rest := chunk[1..][n..];
      var missing := total - |data|;
      if offset != |data| || missing < 0 then Invalid
      else if HasMoreData(chunk[0]) then
        if |rest| > missing then Invalid else Partial(total, data + rest)
      else if |rest| < missing + 2 then Invalid
      else AcceptChecked(data + rest[..missing], rest[missing..missing + 2])
  }

  /** An INIT chunk starts a new message, whatever became of the previous one. */
  function Accept(a: Assembly, chunk: seq<byte>): Assembly {
    if chunk == [] then Invalid
    else if !IsContinuation(chunk[0]) then AcceptInit(chunk)
    else if a.Partial? then AcceptContinuation(a.total, a.data, chunk)
    else Invalid
  }

  function AcceptAll(a: Assembly, chunks: seq<seq<byte>>): Assembly
    decreases |chunks|
  {
    if chunks == [] then a else AcceptAll(Accept(a, chunks[0]), chunks[1..])
  }

  // ---- The receiver understands the sender ----

  lemma SplitWord(crc: bv16)
    ensures crc == 0x100 * (crc >> 8) + (crc & 0xff) && (crc >> 8) & 0xff == crc >> 8
    ensures crc >> 8 < 0x100 && crc & 0xff < 0x100
  {
  }

  lemma JoinBytes(high: bv16, low: bv16)
    requires high < 0x100 && low < 0x100
    ensures (0x100 * high + low) as nat == 0x100 * high as nat + low as nat
  {
  }

  lemma CrcBytesAreNumber(crc: bv16)
    ensures CrcBytes(crc)[0] as nat + 0x100 * CrcBytes(crc)[1] as nat == crc as nat
  {
    SplitWord(crc);
    JoinBytes(crc >> 8, crc & 0xff);
  }

  lemma ChecksumIsAccepted(msg: seq<byte>)
    ensures IsChecksum(msg, Checksum(msg))
  {
    hide CrcBytes, C.Crc;
    CrcBytesAreNumber(C.Crc(0, msg));
  }

  lemma AcceptSingleChunk(a: Assembly, msg: seq<byte>)
    ensures Accept(a, SingleChunk(msg)) == Complete(msg)
  {
    hide Checksum, IsChecksum;
    ChecksumIsAccepted(msg);
    var c := SingleChunk(msg);
    var rest := c[1..];
    assert rest == msg + Checksum(msg);
    assert rest[..|rest| - CRC_LENGTH] == msg && rest[|rest| - CRC_LENGTH..] == Checksum(msg);
  }

  lemma AcceptFirstChunk(a: Assembly, msg: seq<byte>, n: nat)
    requires n <= |msg|
    ensures Accept(a, Prefix(|msg|, 0, true) + msg[..n]) == Partial(|msg|, msg[..n])
  {
    hide V.Decode, V.Encode, Checksum, IsChecksum;
    var c := Prefix(|msg|, 0, true) + msg[..n];
    V.RoundTrip(|msg|, msg[..n]);
    assert c[1..] == V.Encode(|msg|) + msg[..n];
    assert c[1..][|V.Encode(|msg|)|..] == msg[..n];
  }

  lemma PartsOfBody(msg: seq<byte>, offset: nat, n: nat, more: bool, spare: seq<byte>)
    requires offset + n <= |msg|
    requires more ==> spare == []
    ensures var body := Body(msg, offset, n, more) + spare;
            if more then body == msg[offset..offset + n]
            else |body| >= n + CRC_LENGTH && body[..n] == msg[offset..offset + n] &&
                 body[n..n + CRC_LENGTH] == Checksum(msg)
    ensures msg[..offset] + msg[offset..offset + n] == msg[..offset + n]
    ensures offset + n == |msg| ==> msg[..offset + n] == msg
  {
    hide Checksum;
  }

  /** `spare` is what may follow the checksum of the last chunk. */
  lemma AcceptNextChunk(msg: seq<byte>, offset: nat, n: nat, more: bool, spare: seq<byte>)
    requires 0 < offset && offset + n <= |msg|
    requires more ==> spare == []
    requires !more ==> offset + n == |msg|
    ensures Accept(Partial(|msg|, msg[..offset]), Prefix(|msg|, offset, more) + Body(msg, offset, n, more) + spare) ==
            if more then Partial(|msg|, msg[..offset + n]) else Complete(msg)
  {
    hide V.Decode, V.Encode, Checksum, Body, IsChecksum;
    ChecksumIsAccepted(msg);
    var body := Body(msg, offset, n, more) + spare;
    var c := Prefix(|msg|, offset, more) + Body(msg, offset, n, more) + spare;
    PartsOfBody(msg, offset, n, more, spare);
    ParsePrefix(|msg|, offset, more, body);
    assert c == Prefix(|msg|, offset, more) + body;
  }

  lemma ParsePrefix(total: nat, offset: nat, more: bool, body: seq<byte>)
    requires 0 < offset
    ensures var c := Prefix(total, offset, more) + body;
            && V.Decode(c[1..]) == V.Decoded(offset, |V.Encode(offset)|)
            && c[1..][|V.Encode(offset)|..] == body
            && c[0] == HeaderByte(true, more)
  {
    hide V.Decode, V.Encode;
    var c := Prefix(total, offset, more) + body;
    V.RoundTrip(offset, body);
    assert c[1..] == V.Encode(offset) + body;
  }

  /** The receiver has everything that was sent so far. */
  predicate UpToDate(a: Assembly, msg: seq<byte>, offset: nat)
    requires offset <= |msg|
  {
    offset == 0 || a == Partial(|msg|, msg[..offset])
  }

  lemma AcceptOutput(a: Assembly, msg: seq<byte>, offset: nat, space: nat)
    requires offset <= |msg| && |msg| + 3 < UINT32_LIMIT && space >= MIN_CHUNK_BUF_LEN
    requires UpToDate(a, msg, offset)
    ensures var c := NextChunk(msg, offset, space, false);
            Accept(a, c.bytes) == if c.more then Partial(|msg|, msg[..offset + c.taken]) else Complete(msg)
  {
    hide Accept, Prefix, Checksum;
    NextChunkMakesProgress(msg, offset, space, false);
    var c := NextChunk(msg, offset, space, false);
    if offset == 0 && |msg| + 3 <= space {
      assert c.bytes == SingleChunk(msg);
      AcceptSingleChunk(a, msg);
    } else if offset == 0 {
      AcceptFirstChunk(a, msg, c.taken);
      assert Body(msg, 0, c.taken, true) == msg[..c.taken];
    } else {
      AcceptNextChunk(msg, offset, c.taken, c.more, []);
      assert c.bytes + [] == c.bytes;
    }
  }

  // ---- The format, byte by byte ----

  /** The chunks of a message with buffers of `space` bytes: a header of 0x08, 0x48, 0x80 or 0xC0, the length
    * of the message or the offset, then data, which fills the buffer as far as there is any, and the checksum
    * if it fits behind all of it, which makes this the last chunk. */
  lemma ChunkFormat(msg: seq<byte>, offset: nat, space: nat)
    requires offset <= |msg| && |msg| + 3 < UINT32_LIMIT && space >= 9
    ensures IsChecksum(msg, Checksum(msg))
    ensures var size, left := 1 + |V.Encode(if offset == 0 then |msg| else offset)|, |msg| - offset;
            var (lead, n, more) :=
              if offset == 0 && |msg| + 3 <= space then ([0x08], |msg|, false)
              else if offset == 0 then ([0x48] + V.Encode(|msg|), Min(space - size, |msg|), true)
              else if size + left + 2 <= space then ([0x80] + V.Encode(offset), left, false)
              else ([0xC0] + V.Encode(offset), Min(space - size, left), true);
            && 0 <= n <= left
            && NextChunk(msg, offset, space, false) ==
               Output(lead + (msg[offset..offset + n] + if more then [] else Checksum(msg)), n, more)
  {
    hide Checksum, V.Encode, C.Crc, PlanChunk, IsChecksum;
    ChecksumIsAccepted(msg);
    PlanFormat(|msg|, offset, space);
  }

  lemma PlanFormat(total: nat, offset: nat, space: nat)
    requires offset <= total && total + 3 < UINT32_LIMIT && space >= 9
    ensures var size := 1 + |V.Encode(if offset == 0 then total else offset)|;
            && size < space
            && PlanChunk(total, offset, space, false) ==
               if offset == 0 && total + 3 <= space then Plan([0x08], total, false)
               else if offset == 0 then Plan([0x48] + V.Encode(total), Min(space - size, total), true)
               else if size + (total - offset) + 2 <= space then Plan([0x80] + V.Encode(offset), total - offset, false)
               else Plan([0xC0] + V.Encode(offset), Min(space - size, total - offset), true)
  {
    hide V.Encode;
    PrefixLength(total, offset, true);
    PrefixLength(total, offset, false);
  }

  /** In multi-call mode there is one header and one checksum, and buffers are filled as far as there is data. */
  lemma MultiCallFormat(msg: seq<byte>, offset: nat, space: nat)
    requires offset <= |msg| && |msg| + 3 < UINT32_LIMIT && space >= 9
    ensures var c, checksum := NextChunk(msg, offset, space, true), Checksum(msg);
            var lead := if offset == 0 then [0x08] else [];
            var n := Min(space - |lead|, |msg| - offset);
            && n >= 0 && c.taken == n && (c.more <==> space < |lead| + (|msg| - offset) + 2)
            && c.bytes == lead + msg[offset..offset + n] + if c.more then [] else checksum
  {
    hide Checksum, V.Encode;
    PrefixLength(|msg|, offset, true);
    PrefixLength(|msg|, offset, false);
    var p := PlanChunk(|msg|, offset, space, true);
    Regroup(p.lead, msg[offset..offset + p.taken], if p.more then [] else Checksum(msg));
  }

  /** The first byte of a chunk, and the last two of the last chunk. */
  lemma ChunkEnds(msg: seq<byte>, offset: nat, space: nat, multiCall: bool)
    requires offset <= |msg| && |msg| + 3 < UINT32_LIMIT && space >= 9
    ensures var c := NextChunk(msg, offset, space, multiCall);
            var n := |c.bytes|;
            && n >= 1
            && (offset == 0 ==> c.bytes[0] == if c.more && !multiCall then 0x48 else 0x08)
            && (offset > 0 && !multiCall ==> c.bytes[0] == if c.more then 0xC0 else 0x80)
            && (!c.more ==> n >= 2 && IsChecksum(msg, c.bytes[n - 2..]))
  {
    hide Checksum, V.Encode, C.Crc, PlanChunk, IsChecksum, NextChunk;
    if multiCall {
      MultiCallFormat(msg, offset, space);
      ChecksumIsAccepted(msg);
    } else {
      ChunkFormat(msg, offset, space);
    }
    var c := NextChunk(msg, offset, space, multiCall);
    if !c.more {
      var front := c.bytes[..|c.bytes| - 2];
      assert c.bytes[|c.bytes| - 2..] == Checksum(msg);
    }
  }

  lemma AcceptAllCons(a: Assembly, first: seq<byte>, rest: seq<seq<byte>>)
    ensures AcceptAll(a, [first] + rest) == AcceptAll(Accept(a, first), rest)
  {
    hide Accept;
    assert ([first] + rest)[1..] == rest;
  }

  /** Reassembly: whatever the sizes of the buffers, and whatever the receiver had before, it ends
    * up with exactly the part of the message that was sent, and with the message once it is complete. */
  lemma {:induction false} Reassembly(a: Assembly, msg: seq<byte>, offset: nat, sizes: seq<nat>)
    requires offset <= |msg| && |msg| + 3 < UINT32_LIMIT
    requires UpToDate(a, msg, offset)
    ensures var r := Calls(msg, offset, false, sizes);
            if r.complete then AcceptAll(a, r.outputs) == Complete(msg)
            else UpToDate(AcceptAll(a, r.outputs), msg, r.offset) && (r.outputs == [] ==> r.offset == offset)
    decreases |sizes|
  {
    hide Accept, NextChunk, UpToDate;
    if sizes != [] {
      if sizes[0] < MIN_CHUNK_BUF_LEN {
        Reassembly(a, msg, offset, sizes[1..]);
      } else {
        AcceptOutput(a, msg, offset, sizes[0]);
        var c := NextChunk(msg, offset, sizes[0], false);
        if !c.more {
          AcceptAllCons(a, c.bytes, []);
          assert [c.bytes] + [] == [c.bytes];
        } else {
          var next := Accept(a, c.bytes);
          StillUpToDate(next, msg, offset + c.taken);
          Reassembly(next, msg, offset + c.taken, sizes[1..]);
          AcceptAllCons(a, c.bytes, Calls(msg, offset + c.taken, false, sizes[1..]).outputs);
        }
      }
    }
  }

  lemma StillUpToDate(a: Assembly, msg: seq<byte>, offset: nat)
    requires offset <= |msg| && a == Partial(|msg|, msg[..offset])
    ensures UpToDate(a, msg, offset)
  {
  }

  /** A last chunk that is sent together with the unused rest of its buffer is understood as well. */
  lemma SpareBytesAreIgnored(a: Assembly, msg: seq<byte>, offset: nat, space: nat, spare: seq<byte>)
    requires 0 < offset <= |msg| && |msg| + 3 < UINT32_LIMIT && space >= MIN_CHUNK_BUF_LEN
    requires a == Partial(|msg|, msg[..offset])
    requires !NextChunk(msg, offset, space, false).more
    ensures Accept(a, NextChunk(msg, offset, space, false).bytes + spare) == Complete(msg)
  {
    hide Accept, SingleChunk, Prefix, Checksum;
    NextChunkMakesProgress(msg, offset, space, false);
    AcceptNextChunk(msg, offset, |msg| - offset, false, spare);
  }

  // ---- Multi-call mode ----

  /** How much of the single chunk has been produced when `offset` bytes of the message are in it,
    * or all of it is. */
  function Produced(msg: seq<byte>, offset: nat, complete: bool): nat {
    if complete then |msg| + 1 + CRC_LENGTH else if offset == 0 then 0 else 1 + offset
  }

  lemma MultiCallOutput(msg: seq<byte>, offset: nat, space: nat)
    requires offset <= |msg| && |msg| + 3 < UINT32_LIMIT && space >= MIN_CHUNK_BUF_LEN
    ensures var c := NextChunk(msg, offset, space, true);
            Produced(msg, offset, false) <= Produced(msg, offset + c.taken, !c.more) <= |SingleChunk(msg)| &&
            c.bytes == SingleChunk(msg)[Produced(msg, offset, false)..Produced(msg, offset + c.taken, !c.more)]
  {
    hide Checksum, NextChunk;
    MultiCallFormat(msg, offset, space);
    var c := NextChunk(msg, offset, space, true);
    if offset + c.taken < |msg| {
      assert c.more;
    }
    PartOfSingle(HeaderByte(false, false), msg, Checksum(msg), offset, c.taken, c.more);
  }

  lemma PartOfSingle(h: byte, msg: seq<byte>, checksum: seq<byte>, offset: nat, n: nat, more: bool)
    requires offset + n <= |msg| && |checksum| == 2 && (!more ==> offset + n == |msg|) && (more ==> n > 0 || offset > 0)
    ensures var from, to := if offset == 0 then 0 else 1 + offset, if more then 1 + offset + n else |msg| + 3;
            ([h] + msg + checksum)[from..to] ==
            (if offset == 0 then [h] else []) + msg[offset..offset + n] + if more then [] else checksum
  {
  }

  lemma FlattenCons(first: seq<byte>, rest: seq<seq<byte>>)
    ensures Flatten([first] + rest) == first + Flatten(rest)
  {
    assert ([first] + rest)[1..] == rest;
  }

  lemma ProducedIsMonotone(msg: seq<byte>, a: nat, b: nat, complete: bool)
    requires a <= b <= |msg|
    ensures Produced(msg, a, false) <= Produced(msg, b, complete) <= |SingleChunk(msg)|
  {
  }

  /** In multi-call mode the outputs, one after the other, are the chunk that a single buffer of
    * |msg| + 3 bytes would have received. */
  lemma {:induction false} MultiCallIsSingleChunk(msg: seq<byte>, offset: nat, sizes: seq<nat>)
    requires offset <= |msg| && |msg| + 3 < UINT32_LIMIT
    ensures var r := Calls(msg, offset, true, sizes);
            Produced(msg, offset, false) <= Produced(msg, r.offset, r.complete) <= |SingleChunk(msg)| &&
            Flatten(r.outputs) == SingleChunk(msg)[Produced(msg, offset, false)..Produced(msg, r.offset, r.complete)]
    decreases |sizes|
  {
    hide NextChunk, SingleChunk, Flatten, Produced;
    if sizes == [] {
      ProducedIsMonotone(msg, offset, offset, false);
      FlattenFew<byte>([]);
    } else if sizes[0] < MIN_CHUNK_BUF_LEN {
      MultiCallIsSingleChunk(msg, offset, sizes[1..]);
    } else {
      MultiCallOutput(msg, offset, sizes[0]);
      var c := NextChunk(msg, offset, sizes[0], true);
      if !c.more {
        FlattenFew(c.bytes);
      } else {
        var rest := Calls(msg, offset + c.taken, true, sizes[1..]);
        MultiCallIsSingleChunk(msg, offset + c.taken, sizes[1..]);
        FlattenCons(c.bytes, rest.outputs);
        SplitRange(SingleChunk(msg), Produced(msg, offset, false), Produced(msg, offset + c.taken, false),
                   Produced(msg, rest.offset, rest.complete));
      }
    }
  }
}
