/** The minimal CBOR encoder (components/util/src/memfault_minimal_cbor.c) and the reading of its
  * output by section 2.1 of RFC 7049. */
module Cbor {
  import opened Bytes

  const UNSIGNED := 0
  const NEGATIVE := 1
  const BYTE_STRING := 2
  const TEXT_STRING := 3
  const ARRAY := 4
  const MAP := 5
  const SIMPLE := 7
  const SIMPLE_NULL := 22

  // ---- Heads: a major type and an argument ----

  /** The last `n` bytes of a number, the most significant one first. */
  function BigEndian(value: nat, n: nat): (s: seq<byte>)
    ensures |s| == n
  {
    if n == 0 then [] else BigEndian(value / 0x100, n - 1) + [(value % 0x100) as byte]
  }

  function FromBigEndian(s: seq<byte>): nat {
    if s == [] then 0 else FromBigEndian(s[..|s| - 1]) * 0x100 + s[|s| - 1] as nat
  }

  /** How many bytes follow the initial byte for an argument; none when it fits into that byte. */
  function ArgumentSize(value: nat): nat {
    if value < 24 then 0 else if value < 0x100 then 1 else if value < 0x1_0000 then 2
    else if value < UINT32_LIMIT then 4 else 8
  }

  /** The additional information that announces an argument of so many bytes. */
  function SizeCode(size: nat): nat {
    match size
    case 1 => 24
    case 2 => 25
    case 4 => 26
    case _ => 27
  }

  type Major = m: nat | m < 8

  function Head(major: Major, value: nat): (s: seq<byte>)
    ensures |s| == 1 + ArgumentSize(value)
  {
    var size := ArgumentSize(value);
    [(major * 32 + if size == 0 then value else SizeCode(size)) as byte] + BigEndian(value, size)
  }

  datatype Decoded<T> = Malformed | Decoded(value: T, length: nat)

  datatype HeadValue = HeadValue(major: Major, argument: nat)

  /** Reads a head off the front of `s`. */
  function DecodeHead(s: seq<byte>): (d: Decoded<HeadValue>)
    ensures d.Decoded? ==> 1 <= d.length <= |s|
  {
    if s == [] then Malformed
    else
      var major, info := s[0] as nat / 32, s[0] as nat % 32;
      if info < 24 then Decoded(HeadValue(major, info), 1)
      else if info > 27 then Malformed
      else
        var size := if info == 24 then 1 else if info == 25 then 2 else if info == 26 then 4 else 8;
        if |s| < 1 + size then Malformed
        else Decoded(HeadValue(major, FromBigEndian(s[1..1 + size])), 1 + size)
  }

  function Power256(n: nat): nat {
    if n == 0 then 1 else 0x100 * Power256(n - 1)
  }

  lemma {:induction false} BigEndianRoundTrip(value: nat, n: nat)
    requires value < Power256(n)
    ensures FromBigEndian(BigEndian(value, n)) == value
    decreases n
  {
    if n > 0 {
      BigEndianRoundTrip(value / 0x100, n - 1);
      var s := BigEndian(value, n);
      assert s[..|s| - 1] == BigEndian(value / 0x100, n - 1);
    }
  }

  lemma ArgumentFits(value: nat)
    requires value < 0x1_0000_0000_0000_0000
    ensures value >= 24 ==> value < Power256(ArgumentSize(value))
  {
    assert Power256(1) == 0x100;
    assert Power256(2) == 0x1_0000;
    assert Power256(3) == 0x100_0000;
    assert Power256(4) == 0x1_0000_0000;
    assert Power256(5) == 0x100_0000_0000;
    assert Power256(6) == 0x1_0000_0000_0000;
    assert Power256(7) == 0x100_0000_0000_0000;
    assert Power256(8) == 0x1_0000_0000_0000_0000;
  }

  lemma HeadRoundTrip(major: Major, value: nat, rest: seq<byte>)
    requires value < 0x1_0000_0000_0000_0000
    ensures DecodeHead(Head(major, value) + rest) == Decoded(HeadValue(major, value), |Head(major, value)|)
  {
    hide FromBigEndian, BigEndian;
    var s := Head(major, value) + rest;
    var size := ArgumentSize(value);
    assert s[1..1 + size] == BigEndian(value, size);
    if size > 0 {
      ArgumentFits(value);
      BigEndianRoundTrip(value, size);
    }
  }

  // ---- Data items ----

  /** What one call of the encoder's interface adds. */
  datatype Item =
    | Integer(i: int)
    | ByteString(data: seq<byte>)
    | TextString(data: seq<byte>)
    | ArrayOf(elements: nat)
    | MapOf(pairs: nat)
    | Double(bits: nat)
    | Null

  /** The arguments the interface can take. */
  predicate Encodable(item: Item) {
    match item
    case Integer(i) => -0x8000_0000_0000_0000 <= i < 0x8000_0000_0000_0000
    case ByteString(data) => |data| < UINT32_LIMIT
    case TextString(data) => |data| < UINT32_LIMIT
    case ArrayOf(n) => n < UINT32_LIMIT
    case MapOf(n) => n < UINT32_LIMIT
    case Double(bits) => bits < 0x1_0000_0000_0000_0000
    case Null => true
  }

  function Encode(item: Item): (s: seq<byte>)
    ensures |s| >= 1
  {
    match item
    case Integer(i) => if i >= 0 then Head(UNSIGNED, i) else Head(NEGATIVE, -1 - i)
    case ByteString(data) => Head(BYTE_STRING, |data|) + data
    case TextString(data) => Head(TEXT_STRING, |data|) + data
    case ArrayOf(n) => Head(ARRAY, n)
    case MapOf(n) => Head(MAP, n)
    case Double(bits) => [(SIMPLE * 32 + 27) as byte] + BigEndian(bits, 8)
    case Null => [(SIMPLE * 32 + SIMPLE_NULL) as byte]
  }

  /** The initial byte of an item whose argument is below 24, and those of larger arguments. */
  lemma InitialBytes(item: Item)
    ensures match item
            case Integer(i) =>
              && (0 <= i < 24 ==> Encode(item) == [i as byte])
              && (-24 <= i < 0 ==> Encode(item) == [(0x1f - i) as byte])
              && (24 <= i < 0x100 ==> Encode(item)[0] == 0x18) && (0x100 <= i < 0x1_0000 ==> Encode(item)[0] == 0x19)
              && (0x1_0000 <= i < 0x1_0000_0000 ==> Encode(item)[0] == 0x1a) && (0x1_0000_0000 <= i ==> Encode(item)[0] == 0x1b)
            case ByteString(data) => |data| < 24 ==> Encode(item) == [(0x40 + |data|) as byte] + data
            case TextString(data) => |data| < 24 ==> Encode(item) == [(0x60 + |data|) as byte] + data
            case ArrayOf(n) => n < 24 ==> Encode(item) == [(0x80 + n) as byte]
            case MapOf(n) => n < 24 ==> Encode(item) == [(0xa0 + n) as byte]
            case Double(bits) => Encode(item)[0] == 0xfb && |Encode(item)| == 9
            case Null => Encode(item) == [0xf6]
  {
    NoBytes();
  }

  lemma NoBytes()
    ensures forall v: nat :: BigEndian(v, 0) == []
  {
  }

  /** What is read of an item, by the numbers of section 2.1 of RFC 7049. */
  function DecodeItem(s: seq<byte>): (d: Decoded<Item>)
    ensures d.Decoded? ==> 1 <= d.length <= |s|
  {
    match DecodeHead(s)
    case Malformed => Malformed
    case Decoded(h, n) =>
      if h.major == 0 then Decoded(Integer(h.argument), n)
      else if h.major == 1 then Decoded(Integer(-1 - h.argument), n)
      else if h.major == 2 || h.major == 3 then
        if n + h.argument > |s| then Malformed
        else
          var data := s[n..n + h.argument];
          Decoded(if h.major == 2 then ByteString(data) else TextString(data), n + h.argument)
      else if h.major == 4 then Decoded(ArrayOf(h.argument), n)
      else if h.major == 5 then Decoded(MapOf(h.argument), n)
      else if h.major == 7 && n == 9 then Decoded(Double(h.argument), n)
      else if h.major == 7 && n == 1 && h.argument == 22 then Decoded(Null, n)
      else Malformed
  }

  lemma DoubleRoundTrip(bits: nat, rest: seq<byte>)
    requires bits < 0x1_0000_0000_0000_0000
    ensures DecodeHead(Encode(Double(bits)) + rest) == Decoded(HeadValue(SIMPLE, bits), 9)
  {
    hide FromBigEndian, BigEndian, Power256;
    var s := Encode(Double(bits)) + rest;
    assert s[1..9] == BigEndian(bits, 8);
    EightBytes();
    BigEndianRoundTrip(bits, 8);
  }

  lemma EightBytes()
    ensures Power256(8) == 0x1_0000_0000_0000_0000
  {
    assert Power256(2) == 0x1_0000;
    assert Power256(4) == 0x1_0000_0000;
    assert Power256(6) == 0x1_0000_0000_0000;
  }

  lemma StringPart(head: seq<byte>, data: seq<byte>, rest: seq<byte>)
    ensures (head + data + rest)[|head|..|head| + |data|] == data
    ensures head + data + rest == head + (data + rest)
  {
  }

  lemma ItemRoundTrip(item: Item, rest: seq<byte>)
    requires Encodable(item)
    ensures DecodeItem(Encode(item) + rest) == Decoded(item, |Encode(item)|)
  {
    hide Head, DecodeHead;
    match item
    case Integer(i) =>
      HeadRoundTrip(if i >= 0 then UNSIGNED else NEGATIVE, if i >= 0 then i else -1 - i, rest);
    case ByteString(data) =>
      HeadRoundTrip(BYTE_STRING, |data|, data + rest);
      StringPart(Head(BYTE_STRING, |data|), data, rest);
    case TextString(data) =>
      HeadRoundTrip(TEXT_STRING, |data|, data + rest);
      StringPart(Head(TEXT_STRING, |data|), data, rest);
    case ArrayOf(n) => HeadRoundTrip(ARRAY, n, rest);
    case MapOf(n) => HeadRoundTrip(MAP, n, rest);
    case Double(bits) => DoubleRoundTrip(bits, rest);
    case Null => HeadRoundTrip(SIMPLE, SIMPLE_NULL, rest); NullIsHead();
  }

  lemma NullIsHead()
    ensures Encode(Null) == Head(SIMPLE, SIMPLE_NULL)
    ensures |Encode(Null)| == 1
  {
  }

  function EncodeAll(items: seq<Item>): seq<byte> {
    if items == [] then [] else Encode(items[0]) + EncodeAll(items[1..])
  }

  function DecodeAll(s: seq<byte>): Option<seq<Item>>
    decreases |s|
  {
    if s == [] then Some([])
    else
      match DecodeItem(s)
      case Malformed => None
      case Decoded(item, n) =>
        match DecodeAll(s[n..])
        case None => None
        case Some(items) => Some([item] + items)
  }

  /** A sequence of items is read back as it was written. */
  lemma {:induction false} AllRoundTrip(items: seq<Item>)
    requires forall i :: 0 <= i < |items| ==> Encodable(items[i])
    ensures DecodeAll(EncodeAll(items)) == Some(items)
    decreases |items|
  {
    hide Encode, DecodeItem, Encodable;
    if items != [] {
      var rest := EncodeAll(items[1..]);
      ItemRoundTrip(items[0], rest);
      AllRoundTrip(items[1..]);
      assert (Encode(items[0]) + rest)[|Encode(items[0])|..] == rest;
      assert [items[0]] + items[1..] == items;
    }
  }

  lemma {:induction false} EncodeAllConcat(a: seq<Item>, b: seq<Item>)
    ensures EncodeAll(a + b) == EncodeAll(a) + EncodeAll(b)
    decreases |a|
  {
    hide Encode;
    if a == [] {
      assert a + b == b;
    } else {
      EncodeAllConcat(a[1..], b);
      assert (a + b)[1..] == a[1..] + b;
    }
  }

  // ---- The encoder ----

  const STATUS_ENOMEM := 12

  class Encoder {
    var computeSizeOnly: bool
    var bufLen: nat
    var encodedSize: nat
    var status: int
    /** The bytes passed to the write callback, which gets them in order and at increasing offsets. */
    var output: seq<byte>

    ghost predicate Valid()
      reads this
    {
      if computeSizeOnly then output == [] else encodedSize == |output| <= bufLen
    }

    constructor (bufLen: nat)
      ensures Valid() && !computeSizeOnly && this.bufLen == bufLen && output == [] && status == 0
    {
      computeSizeOnly, this.bufLen, encodedSize, status, output := false, bufLen, 0, 0, [];
    }

    constructor SizeOnly()
      ensures Valid() && computeSizeOnly && encodedSize == 0 && status == 0
    {
      computeSizeOnly, bufLen, encodedSize, status, output := true, 0, 0, 0, [];
    }

    /** Ends the encoding; returns its size. */
    method Deinit() returns (bytesEncoded: nat)
      modifies this
      ensures bytesEncoded == old(encodedSize)
      ensures !computeSizeOnly && bufLen == 0 && encodedSize == 0 && status == 0 && output == []
    {
      bytesEncoded := encodedSize;
      computeSizeOnly, bufLen, encodedSize, status, output := false, 0, 0, 0, [];
    }

    method AddToResultBuffer(data: seq<byte>) returns (ok: bool)
      requires Valid()
      modifies this
      ensures Valid() && computeSizeOnly == old(computeSizeOnly) && bufLen == old(bufLen)
      ensures ok == (computeSizeOnly || data == [] || old(encodedSize) + |data| <= bufLen)
      ensures encodedSize == old(encodedSize) + (if ok then |data| else 0)
      ensures output == old(output) + (if ok && !computeSizeOnly then data else [])
      ensures status == if ok then old(status) else STATUS_ENOMEM
    {
      if |data| == 0 {
        return true;
      }
      if computeSizeOnly {
        encodedSize := encodedSize + |data|;
        return true;
      }
      if encodedSize + |data| > bufLen {
        status := STATUS_ENOMEM;
        return false;
      }
      output := output + data;
      encodedSize := encodedSize + |data|;
      return true;
    }

    /** Adds a head whose argument fits into 32 bits. */
    method EncodeUnsigned(major: Major, val: nat) returns (ok: bool)
      requires Valid() && val < UINT32_LIMIT
      modifies this
      ensures Valid() && computeSizeOnly == old(computeSizeOnly) && bufLen == old(bufLen)
      ensures ok == (computeSizeOnly || old(encodedSize) + |Head(major, val)| <= bufLen)
      ensures encodedSize == old(encodedSize) + (if ok then |Head(major, val)| else 0)
      ensures output == old(output) + (if ok && !computeSizeOnly then Head(major, val) else [])
      ensures status == if ok then old(status) else STATUS_ENOMEM
    {
      var mt := major * 32;
      var tmp: seq<byte>;
      if val < 24 {
        tmp := [(mt + val) as byte];
      } else if val <= 0xff {
        tmp := [(mt + 24) as byte, (val % 0x100) as byte];
      } else if val <= 0xffff {
        tmp := [(mt + 25) as byte, (val / 0x100 % 0x100) as byte, (val % 0x100) as byte];
      } else {
        tmp := [(mt + 26) as byte, (val / 0x100_0000 % 0x100) as byte, (val / 0x1_0000 % 0x100) as byte,
                (val / 0x100 % 0x100) as byte, (val % 0x100) as byte];
      }
      HeadBytes(major, val);
      ok := AddToResultBuffer(tmp);
    }

    /** Adds an integer of up to 64 bits. */
    method EncodeInteger(value: int) returns (ok: bool)
      requires Valid() && Encodable(Integer(value))
      modifies this
      ensures Valid() && computeSizeOnly == old(computeSizeOnly) && bufLen == old(bufLen)
      ensures ok == (computeSizeOnly || old(encodedSize) + |Encode(Integer(value))| <= bufLen)
      ensures encodedSize == old(encodedSize) + (if ok then |Encode(Integer(value))| else 0)
      ensures output == old(output) + (if ok && !computeSizeOnly then Encode(Integer(value)) else [])
      ensures status == if ok then old(status) else STATUS_ENOMEM
    {
      hide Head, BigEndian;
      var major := if value < 0 then NEGATIVE else UNSIGNED;
      var ui := if value < 0 then -1 - value else value;
      if ui < UINT32_LIMIT {
        ok := EncodeUnsigned(major, ui);
      } else {
        LongHead(major, ui);
        ok := AddToResultBuffer([(major * 32 + 27) as byte] + BigEndian(ui, 8));
      }
    }

    /** Adds a string: a head with its length, and its bytes. */
    method EncodeString(major: Major, data: seq<byte>) returns (ok: bool)
      requires Valid() && |data| < UINT32_LIMIT
      modifies this
      ensures Valid() && computeSizeOnly == old(computeSizeOnly) && bufLen == old(bufLen)
      ensures ok == (computeSizeOnly || old(encodedSize) + |Head(major, |data|) + data| <= bufLen)
      ensures ok ==> encodedSize == old(encodedSize) + |Head(major, |data|) + data| && status == old(status)
      ensures ok ==> output == old(output) + (if !computeSizeOnly then Head(major, |data|) + data else [])
      ensures !ok ==> old(output) <= output && status == STATUS_ENOMEM
    {
      hide Head;
      ok := EncodeUnsigned(major, |data|);
      if ok {
        ok := AddToResultBuffer(data);
      }
    }

    /** Adds one item. When there is no room for it, part of it may have been written. */
    method EncodeItem(item: Item) returns (ok: bool)
      requires Valid() && Encodable(item)
      modifies this
      ensures Valid() && computeSizeOnly == old(computeSizeOnly) && bufLen == old(bufLen)
      ensures ok == (computeSizeOnly || old(encodedSize) + |Encode(item)| <= bufLen)
      ensures ok ==> encodedSize == old(encodedSize) + |Encode(item)| && status == old(status)
      ensures ok ==> output == old(output) + (if !computeSizeOnly then Encode(item) else [])
      ensures !ok ==> old(output) <= output && status == STATUS_ENOMEM
    {
      hide Head, BigEndian;
      match item
      case Integer(i) => ok := EncodeInteger(i);
      case ByteString(data) => ok := EncodeString(BYTE_STRING, data);
      case TextString(data) => ok := EncodeString(TEXT_STRING, data);
      case ArrayOf(n) => ok := EncodeUnsigned(ARRAY, n);
      case MapOf(n) => ok := EncodeUnsigned(MAP, n);
      case Double(bits) => ok := AddToResultBuffer([(SIMPLE * 32 + 27) as byte] + BigEndian(bits, 8));
      case Null => ok := AddToResultBuffer([(SIMPLE * 32 + SIMPLE_NULL) as byte]);
    }
  }

  /** A 64-bit argument is written with nine bytes, even where fewer would do. */
  lemma LongHead(major: Major, val: nat)
    requires UINT32_LIMIT <= val
    ensures Head(major, val) == [(major * 32 + 27) as byte] + BigEndian(val, 8)
  {
  }

  /** A head written out byte by byte. */
  lemma HeadBytes(major: Major, val: nat)
    requires val < UINT32_LIMIT
    ensures Head(major, val) ==
            if val < 24 then [(major * 32 + val) as byte]
            else if val <= 0xff then [(major * 32 + 24) as byte, (val % 0x100) as byte]
            else if val <= 0xffff then
              [(major * 32 + 25) as byte, (val / 0x100 % 0x100) as byte, (val % 0x100) as byte]
            else [(major * 32 + 26) as byte, (val / 0x100_0000 % 0x100) as byte, (val / 0x1_0000 % 0x100) as byte,
                  (val / 0x100 % 0x100) as byte, (val % 0x100) as byte]
  {
    hide BigEndian;
    OneByte(val);
    TwoBytes(val);
    FourBytes(val);
  }

  lemma OneByte(val: nat)
    ensures BigEndian(val, 1) == [(val % 0x100) as byte]
  {
    assert BigEndian(val / 0x100, 0) == [];
  }

  lemma TwoBytes(val: nat)
    ensures BigEndian(val, 2) == [(val / 0x100 % 0x100) as byte, (val % 0x100) as byte]
  {
    OneByte(val / 0x100);
  }

  lemma FourBytes(val: nat)
    ensures BigEndian(val, 4) == [(val / 0x100_0000 % 0x100) as byte, (val / 0x1_0000 % 0x100) as byte,
                                  (val / 0x100 % 0x100) as byte, (val % 0x100) as byte]
  {
    var v2 := val / 0x100 / 0x100;
    assert v2 == val / 0x1_0000 && v2 / 0x100 == val / 0x100_0000;
    TwoBytes(v2);
    assert BigEndian(val / 0x100, 3) == BigEndian(v2, 2) + [(val / 0x100 % 0x100) as byte];
  }
}
