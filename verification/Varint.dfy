/** Base-128 varints and the zigzag mapping (components/util/src/memfault_varint.c). */
module Varint {
  import opened Bytes

  const MAX_U32_LENGTH := 5

  // ---- Specification ----

  /** The wire form of `value`: seven bits a byte, least significant group first. */
  function Encode(value: nat): (s: seq<byte>)
    ensures |s| >= 1
  {
    if value >= 128 then [(0x80 + value % 128) as byte] + Encode(value / 128) else [value as byte]
  }

  datatype Decoded = Malformed | Decoded(value: nat, length: nat)

  /** Reads one varint off the front of `s`, as a receiver does. */
  function Decode(s: seq<byte>): (d: Decoded)
    ensures d.Decoded? ==> 1 <= d.length <= |s|
  {
    if s == [] then Malformed
    else if s[0] < 128 then Decoded(s[0] as nat, 1)
    else
      match Decode(s[1..])
      case Malformed => Malformed
      case Decoded(v, n) => Decoded(s[0] as nat - 128 + 128 * v, n + 1)
  }

  lemma {:induction false} RoundTrip(value: nat, rest: seq<byte>)
    ensures Decode(Encode(value) + rest) == Decoded(value, |Encode(value)|)
  {
    if value >= 128 {
      RoundTrip(value / 128, rest);
      assert (Encode(value) + rest)[1..] == Encode(value / 128) + rest;
    }
  }

  lemma EncodeStep(value: nat)
    ensures Encode(value) == if value >= 128 then [(0x80 + value % 128) as byte] + Encode(value / 128) else [value as byte]
  {
  }

  /** The length of an encoding is bounded by the number of seven-bit groups of the value. */
  lemma LengthBound(value: nat)
    ensures value < 0x80 ==> |Encode(value)| == 1
    ensures 0x80 <= value < 0x4000 ==> |Encode(value)| == 2
    ensures 0x4000 <= value < 0x20_0000 ==> |Encode(value)| == 3
    ensures 0x20_0000 <= value < 0x1000_0000 ==> |Encode(value)| == 4
    ensures 0x1000_0000 <= value < UINT32_LIMIT ==> |Encode(value)| == MAX_U32_LENGTH
  {
    var v1 := value / 128;
    var v2 := v1 / 128;
    var v3 := v2 / 128;
    var v4 := v3 / 128;
    assert value >= 128 ==> |Encode(value)| == 1 + |Encode(v1)|;
    assert v1 >= 128 ==> |Encode(v1)| == 1 + |Encode(v2)|;
    assert v2 >= 128 ==> |Encode(v2)| == 1 + |Encode(v3)|;
    assert v3 >= 128 ==> |Encode(v3)| == 1 + |Encode(v4)|;
  }

  /** The bytes of a varint: seven bits in each, the low ones first, and the top bit in all but the last. */
  lemma BytesOf(value: nat)
    requires value < UINT32_LIMIT
    ensures var s := Encode(value);
            && 1 <= |s| <= 5
            && (forall i :: 0 <= i < |s| ==> (s[i] >= 0x80 <==> i < |s| - 1))
            && s[0] as nat % 0x80 + (if |s| < 2 then 0 else 0x80 * (s[1] as nat % 0x80)) +
               (if |s| < 3 then 0 else 0x4000 * (s[2] as nat % 0x80)) +
               (if |s| < 4 then 0 else 0x20_0000 * (s[3] as nat % 0x80)) +
               (if |s| < 5 then 0 else 0x1000_0000 * (s[4] as nat % 0x80)) == value
  {
    hide Encode;
    LengthBound(value);
    EncodeStep(value);
    EncodeStep(value / 128);
    EncodeStep(value / 128 / 128);
    EncodeStep(value / 128 / 128 / 128);
    EncodeStep(value / 128 / 128 / 128 / 128);
  }

  /** Maps 0, -1, 1, -2, ... to 0, 1, 2, 3, ... */
  function ZigZag(i: int): (u: nat) {
    if i >= 0 then 2 * i else -2 * i - 1
  }

  function UnZigZag(u: nat): (i: int) {
    if u % 2 == 0 then u / 2 else -((u + 1) / 2)
  }

  lemma ZigZagRoundTrip(i: int, u: nat)
    ensures UnZigZag(ZigZag(i)) == i
    ensures ZigZag(UnZigZag(u)) == u
    ensures ZigZag(i) < UINT32_LIMIT <==> -INT32_LIMIT <= i < INT32_LIMIT
  {
  }

  /** The expression the code evaluates on 32-bit words: the shifted value, xor'ed with the sign
    * bit spread over the whole word by an arithmetic shift. */
  function ZigZagWord(value: bv32): bv32 {
    (value << 1) ^ (if value & 0x8000_0000 != 0 then 0xffff_ffff else 0)
  }

  lemma ZigZagWordCases(value: bv32)
    ensures value < 0x8000_0000 ==> ZigZagWord(value) == value + value
    ensures value >= 0x8000_0000 ==> ZigZagWord(value) == 0xffff_ffff - (value + value)
  {
  }

  // ---- Implementation ----

  /** Writes the varint of `value` into `buf` from index `at` on and returns its length. */
  method EncodeU32(value: nat, buf: array<byte>, at: nat) returns (n: nat)
    requires value < UINT32_LIMIT
    requires at + MAX_U32_LENGTH <= buf.Length
    modifies buf
    ensures n == |Encode(value)| <= MAX_U32_LENGTH
    ensures buf[..] == Splice(old(buf[..]), at, Encode(value))
  {
    hide Encode;
    LengthBound(value);
    ghost var was := buf[..];
    ghost var done: seq<byte> := [];
    var rest := value;
    n := 0;
    while rest >= 128
      invariant n == |done| && done + Encode(rest) == Encode(value)
      invariant buf[..] == Splice(was, at, done)
      decreases rest
    {
      EncodeStep(rest);
      Regroup(done, [(0x80 + rest % 128) as byte], Encode(rest / 128));
      PutByte(buf, at + n, (0x80 + rest % 128) as byte, was, at, done);
      done := done + [(0x80 + rest % 128) as byte];
      rest := rest / 128;
      n := n + 1;
    }
    EncodeStep(rest);
    PutByte(buf, at + n, rest as byte, was, at, done);
    n := n + 1;
  }

  /** The zigzag word on integers: the doubled word, complemented for a negative value. */
  lemma ShiftedWord(value: int)
    requires -INT32_LIMIT <= value < INT32_LIMIT
    ensures value >= 0 ==> (2 * value) % UINT32_LIMIT == ZigZag(value) < UINT32_LIMIT
    ensures value < 0 ==> UINT32_LIMIT - 1 - (2 * (value + UINT32_LIMIT)) % UINT32_LIMIT == ZigZag(value) < UINT32_LIMIT
  {
    if value < 0 {
      assert 2 * (value + UINT32_LIMIT) == UINT32_LIMIT + (2 * value + UINT32_LIMIT);
    }
  }

  method EncodeSi32(value: int, buf: array<byte>, at: nat) returns (n: nat)
    requires -INT32_LIMIT <= value < INT32_LIMIT
    requires at + MAX_U32_LENGTH <= buf.Length
    modifies buf
    ensures n == |Encode(ZigZag(value))| <= MAX_U32_LENGTH
    ensures buf[..] == Splice(old(buf[..]), at, Encode(ZigZag(value)))
  {
    // `ZigZagWord` on integers: see `ZigZagWordCases`.
    hide Encode;
    ShiftedWord(value);
    var word := if value < 0 then value + UINT32_LIMIT else value;
    var shifted := (2 * word) % UINT32_LIMIT;
    n := EncodeU32(if value < 0 then UINT32_LIMIT - 1 - shifted else shifted, buf, at);
  }
}
