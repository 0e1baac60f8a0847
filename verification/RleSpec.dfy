/** What run-length encoding a message means, defined on whole messages: how a message is cut into
  * segments, the bytes each segment becomes, and the decoder that a receiver runs on them.
  *
  * The wire format (components/include/memfault/util/rle.h) is a list of records, each a zigzag
  * varint followed by data: a positive count n is followed by the one byte that is repeated n
  * times, a negative count -n by n bytes that are copied literally. */
module RleSpec {
  import opened Bytes
  import V = Varint

  // ---- Cutting a message into segments ----

  predicate TripleAt(msg: seq<byte>, i: nat) {
    i + 2 < |msg| && msg[i] == msg[i + 1] == msg[i + 2]
  }

  /** The end of the longest stretch of equal bytes that starts at `p`. */
  function RunEnd(msg: seq<byte>, p: nat): (e: nat)
    requires p < |msg|
    ensures p < e <= |msg|
    ensures forall i :: p <= i < e ==> msg[i] == msg[p]
    ensures e < |msg| ==> msg[e] != msg[p]
    decreases |msg| - p
  {
    if p + 1 < |msg| && msg[p + 1] == msg[p] then RunEnd(msg, p + 1) else p + 1
  }

  /** The first index from `p` on where three equal bytes start; the end of `msg` if there is none. */
  function LiteralEnd(msg: seq<byte>, p: nat): (e: nat)
    requires p <= |msg|
    ensures p <= e <= |msg|
    ensures forall i :: p <= i < e ==> !TripleAt(msg, i)
    ensures e < |msg| ==> TripleAt(msg, e)
    decreases |msg| - p
  {
    if p == |msg| || TripleAt(msg, p) then p else LiteralEnd(msg, p + 1)
  }

  /** A segment is a run when its first two bytes are equal. */
  predicate IsRun(msg: seq<byte>, p: nat)
    requires p < |msg|
  {
    p + 1 < |msg| && msg[p] == msg[p + 1]
  }

  /** Where the segment starting at `p` ends: a run is as long as possible, a literal goes on until
    * three equal bytes start. */
  function SegmentEnd(msg: seq<byte>, p: nat): (e: nat)
    requires p < |msg|
    ensures p < e <= |msg|
  {
    if IsRun(msg, p) then RunEnd(msg, p) else LiteralEnd(msg, p + 1)
  }

  // ---- The bytes of a segment ----

  function SignedCount(isRun: bool, count: nat): int {
    if isRun then count else 0 - count
  }

  /** The record header of a segment of `count` bytes. */
  function Header(isRun: bool, count: nat): (h: seq<byte>)
    ensures |h| >= 1
  {
    V.Encode(V.ZigZag(SignedCount(isRun, count)))
  }

  function PayloadLength(isRun: bool, count: nat): nat {
    if isRun then 1 else count
  }

  /** The record for msg[p..e]. */
  function RecordBytes(msg: seq<byte>, p: nat, e: nat): (s: seq<byte>)
    requires p < e <= |msg|
  {
    Header(IsRun(msg, p), e - p) + msg[p..p + PayloadLength(IsRun(msg, p), e - p)]
  }

  /** A run becomes the varint of twice its length, and its byte; a literal the varint of twice its length less
    * one, and its bytes. */
  lemma RecordFormat(msg: seq<byte>, p: nat, e: nat)
    requires p < e <= |msg|
    ensures RecordBytes(msg, p, e) ==
            if p + 1 < |msg| && msg[p] == msg[p + 1] then V.Encode(2 * (e - p)) + [msg[p]]
            else V.Encode(2 * (e - p) - 1) + msg[p..e]
  {
    hide V.Encode;
    assert msg[p..p + 1] == [msg[p]];
  }

  /** The encoding of msg[p..], for a `p` where a segment starts. */
  function EncodeFrom(msg: seq<byte>, p: nat): (s: seq<byte>)
    requires p <= |msg|
    ensures p < |msg| ==> |s| >= 2
    decreases |msg| - p
  {
    if p == |msg| then []
    else RecordBytes(msg, p, SegmentEnd(msg, p)) + EncodeFrom(msg, SegmentEnd(msg, p))
  }

  function Encode(msg: seq<byte>): seq<byte> {
    EncodeFrom(msg, 0)
  }

  // ---- The receiver ----

  /** The bytes that a record with this payload stands for. */
  function Expand(isRun: bool, count: nat, payload: seq<byte>): (s: seq<byte>)
    requires count >= 1
    requires |payload| == PayloadLength(isRun, count)
    ensures |s| == count
  {
    if isRun then Repeat(payload[0], count) else payload
  }

  datatype Parsed = Malformed | Parsed(data: seq<byte>, used: nat)

  /** Reads one record off the front of `s`. */
  function DecodeRecord(s: seq<byte>): (r: Parsed)
    ensures r.Parsed? ==> 1 <= r.used <= |s|
  {
    match V.Decode(s)
    case Malformed => Malformed
    case Decoded(word, n) =>
      var signed := V.UnZigZag(word);
      var payloadLength := if signed > 0 then 1 else -signed;
      if n + payloadLength > |s| then Malformed
      else
        var payload := s[n..n + payloadLength];
        Parsed(if signed > 0 then Repeat(payload[0], signed) else payload, n + payloadLength)
  }

  function Decode(s: seq<byte>): Option<seq<byte>>
    decreases |s|
  {
    if s == [] then Some([])
    else
      match DecodeRecord(s)
      case Malformed => None
      case Parsed(data, used) =>
        match Decode(s[used..])
        case None => None
        case Some(tail) => Some(data + tail)
  }

  /** A header is read back as the count it was written for. */
  lemma HeaderRoundTrip(isRun: bool, count: nat, rest: seq<byte>)
    ensures var d := V.Decode(Header(isRun, count) + rest);
            d.Decoded? && d.length == |Header(isRun, count)| &&
            V.UnZigZag(d.value) == SignedCount(isRun, count)
  {
    var signed := SignedCount(isRun, count);
    V.RoundTrip(V.ZigZag(signed), rest);
    V.ZigZagRoundTrip(signed, 0);
  }

  lemma RecordRoundTrip(h: seq<byte>, isRun: bool, count: nat, payload: seq<byte>, rest: seq<byte>)
    requires count >= 1
    requires |payload| == PayloadLength(isRun, count)
    requires var d := V.Decode(h + (payload + rest));
             d.Decoded? && d.length == |h| && V.UnZigZag(d.value) == SignedCount(isRun, count)
    ensures DecodeRecord(h + payload + rest) == Parsed(Expand(isRun, count, payload), |h| + |payload|)
  {
    var s := h + payload + rest;
    assert s == h + (payload + rest);
    assert s[|h|..|h| + |payload|] == payload;
  }

  lemma ExpandSegment(msg: seq<byte>, p: nat)
    requires p < |msg|
    ensures var e := SegmentEnd(msg, p);
            Expand(IsRun(msg, p), e - p, msg[p..p + PayloadLength(IsRun(msg, p), e - p)]) == msg[p..e]
  {
  }

  lemma SegmentRoundTrip(msg: seq<byte>, p: nat, e: nat, rest: seq<byte>)
    requires p < e <= |msg|
    requires Expand(IsRun(msg, p), e - p, msg[p..p + PayloadLength(IsRun(msg, p), e - p)]) == msg[p..e]
    ensures DecodeRecord(RecordBytes(msg, p, e) + rest) == Parsed(msg[p..e], |RecordBytes(msg, p, e)|)
  {
    hide V.Decode, V.Encode, V.ZigZag, V.UnZigZag, DecodeRecord, Expand, SignedCount;
    var isRun := IsRun(msg, p);
    var payload := msg[p..p + PayloadLength(isRun, e - p)];
    HeaderRoundTrip(isRun, e - p, payload + rest);
    RecordRoundTrip(Header(isRun, e - p), isRun, e - p, payload, rest);
  }

  lemma DecodeOneMore(rec: seq<byte>, data: seq<byte>, rest: seq<byte>, tail: seq<byte>)
    requires DecodeRecord(rec + rest) == Parsed(data, |rec|)
    requires Decode(rest) == Some(tail)
    ensures Decode(rec + rest) == Some(data + tail)
  {
    assert (rec + rest)[|rec|..] == rest;
  }

  lemma EncodeFromStep(msg: seq<byte>, p: nat)
    requires p < |msg|
    ensures EncodeFrom(msg, p) ==
            RecordBytes(msg, p, SegmentEnd(msg, p)) + EncodeFrom(msg, SegmentEnd(msg, p))
  {
  }

  lemma {:induction false} DecodeEncodeFrom(msg: seq<byte>, p: nat)
    requires p <= |msg|
    ensures Decode(EncodeFrom(msg, p)) == Some(msg[p..])
    decreases |msg| - p
  {
    if p == |msg| {
      assert msg[p..] == [];
    } else {
      hide *;
      var e := SegmentEnd(msg, p);
      DecodeEncodeFrom(msg, e);
      ExpandSegment(msg, p);
      SegmentRoundTrip(msg, p, e, EncodeFrom(msg, e));
      DecodeOneMore(RecordBytes(msg, p, e), msg[p..e], EncodeFrom(msg, e), msg[e..]);
      EncodeFromStep(msg, p);
      SplitTail(msg, p, e);
    }
  }

  /** The round trip: a receiver recovers every message from its encoding. */
  lemma RoundTrip(msg: seq<byte>)
    ensures Decode(Encode(msg)) == Some(msg)
  {
    DecodeEncodeFrom(msg, 0);
    assert msg[0..] == msg;
  }

  // ---- How much an encoding can exceed its message ----

  lemma HeaderLength(isRun: bool, count: nat)
    requires 1 <= count < INT32_LIMIT
    ensures 1 <= |Header(isRun, count)| <= V.MAX_U32_LENGTH
    ensures |Header(false, count)| - 1 <= count / 65
    ensures count >= 2 ==> |Header(true, count)| + 1 <= count
    ensures count >= 3 ==> |Header(true, count)| + 1 <= count - 1
  {
    V.LengthBound(2 * count);
    V.LengthBound(2 * count - 1);
  }

  /** A literal that does not end the message is followed by a run of at least three. */
  lemma LiteralIsFollowedByRun(msg: seq<byte>, p: nat)
    requires p < |msg| && !IsRun(msg, p) && SegmentEnd(msg, p) < |msg|
    ensures var e := SegmentEnd(msg, p);
            IsRun(msg, e) && SegmentEnd(msg, e) >= e + 3
  {
    var e := SegmentEnd(msg, p);
    assert TripleAt(msg, e);
    assert RunEnd(msg, e) == RunEnd(msg, e + 1) == RunEnd(msg, e + 2);
  }

  lemma LengthStep(msg: seq<byte>, p: nat, e: nat)
    requires p < |msg| && e == SegmentEnd(msg, p)
    ensures |EncodeFrom(msg, p)| ==
            |Header(IsRun(msg, p), e - p)| + PayloadLength(IsRun(msg, p), e - p) + |EncodeFrom(msg, e)|
  {
    hide Header, SegmentEnd, IsRun;
    EncodeFromStep(msg, p);
  }

  /** Sizes of a run record of `k` bytes, and of a literal record of `n` bytes, in front of an
    * encoding of `r` bytes that has size `size`. */
  lemma RunBound(k: nat, r: nat, header: nat, size: nat)
    requires header + 1 <= k
    requires size <= r + r / 65 + 1
    ensures header + 1 + size <= (k + r) + (k + r) / 65 + 1
  {
  }

  lemma LiteralThenRunBound(n: nat, k: nat, r: nat, header: nat, runHeader: nat, size: nat)
    requires 1 <= header <= n / 65 + 1 && runHeader + 1 <= k - 1
    requires size <= r + r / 65 + 1
    ensures header + n + runHeader + 1 + size <= (n + k + r) + (n + k + r) / 65 + 1
  {
    assert n / 65 + r / 65 <= (n + k + r) / 65;
  }

  ghost predicate WithinBound(msg: seq<byte>, p: nat)
    requires p <= |msg|
  {
    |EncodeFrom(msg, p)| <= (|msg| - p) + (|msg| - p) / 65 + 1
  }

  lemma RunSegmentBound(msg: seq<byte>, p: nat)
    requires p < |msg| < INT32_LIMIT && IsRun(msg, p)
    requires WithinBound(msg, SegmentEnd(msg, p))
    ensures WithinBound(msg, p)
  {
    hide EncodeFrom, Header;
    var e := SegmentEnd(msg, p);
    LengthStep(msg, p, e);
    HeaderLength(true, e - p);
    RunBound(e - p, |msg| - e, |Header(true, e - p)|, |EncodeFrom(msg, e)|);
  }

  lemma LiteralSegmentBound(msg: seq<byte>, p: nat, e: nat, f: nat)
    requires p < |msg| < INT32_LIMIT && !IsRun(msg, p)
    requires e == SegmentEnd(msg, p) < |msg| && f == SegmentEnd(msg, e)
    requires WithinBound(msg, f)
    ensures WithinBound(msg, p)
  {
    hide EncodeFrom, Header;
    LiteralIsFollowedByRun(msg, p);
    LengthStep(msg, p, e);
    LengthStep(msg, e, f);
    HeaderLength(false, e - p);
    HeaderLength(true, f - e);
    LiteralThenRunBound(e - p, f - e, |msg| - f,
                        |Header(false, e - p)|, |Header(true, f - e)|, |EncodeFrom(msg, f)|);
  }

  lemma LastLiteralBound(msg: seq<byte>, p: nat)
    requires p < |msg| < INT32_LIMIT && !IsRun(msg, p) && SegmentEnd(msg, p) == |msg|
    ensures WithinBound(msg, p)
  {
    hide Header;
    LengthStep(msg, p, |msg|);
    HeaderLength(false, |msg| - p);
  }

  lemma {:induction false} ExpansionBoundFrom(msg: seq<byte>, p: nat)
    requires p <= |msg| < INT32_LIMIT
    ensures WithinBound(msg, p)
    decreases |msg| - p
  {
    if p < |msg| {
      var e := SegmentEnd(msg, p);
      if IsRun(msg, p) {
        ExpansionBoundFrom(msg, e);
        RunSegmentBound(msg, p);
      } else if e == |msg| {
        LastLiteralBound(msg, p);
      } else {
        var f := SegmentEnd(msg, e);
        ExpansionBoundFrom(msg, f);
        LiteralSegmentBound(msg, p, e, f);
      }
    }
  }

  /** Encoding a message never adds more than one byte for every 65, plus one. */
  lemma ExpansionBound(msg: seq<byte>)
    requires 0 < |msg| < INT32_LIMIT
    ensures |Encode(msg)| <= |msg| + |msg| / 65 + 1
  {
    ExpansionBoundFrom(msg, 0);
  }

  /** The bound is met: 65 bytes, no two neighbours equal, are encoded in 67. */
  lemma ExpansionBoundIsTight(msg: seq<byte>)
    requires |msg| == 65 && forall i :: 0 <= i < 64 ==> msg[i] != msg[i + 1]
    ensures |Encode(msg)| == |msg| + |msg| / 65 + 1
  {
    assert LiteralEnd(msg, 1) == 65;
    assert SegmentEnd(msg, 0) == 65;
    V.LengthBound(129);
    assert |EncodeFrom(msg, 65)| == 0;
  }
}
