/** The CRC-16/XMODEM checksum of a message (components/util/src/memfault_crc16_ccitt.c): the
  * remainder modulo the polynomial x^16 + x^12 + x^5 + 1. */
module Crc16 {
  import opened Bytes

  const INITIAL_VALUE: bv16 := 0

  // ---- Specification: a bit at a time, in a 16-bit register ----

  /** Multiplies by x: shift, and subtract the polynomial 0x1021 when a bit falls out. */
  function ShiftBit(crc: bv16): bv16 {
    if crc & 0x8000 != 0 then (crc << 1) ^ 0x1021 else crc << 1
  }

  /** Multiplies by x^8. */
  function ShiftByte(crc: bv16): bv16 {
    ShiftBit(ShiftBit(ShiftBit(ShiftBit(ShiftBit(ShiftBit(ShiftBit(ShiftBit(crc))))))))
  }

  predicate IsOdd(n: nat) {
    n % 2 == 1
  }

  /** The word with these eight low bits, the highest first. */
  function Pack(b7: bool, b6: bool, b5: bool, b4: bool, b3: bool, b2: bool, b1: bool, b0: bool): bv16 {
    (if b7 then 0x80 else 0) | (if b6 then 0x40 else 0) | (if b5 then 0x20 else 0) | (if b4 then 0x10 else 0) |
    (if b3 then 0x08 else 0) | (if b2 then 0x04 else 0) | (if b1 then 0x02 else 0) | (if b0 then 0x01 else 0)
  }

  /** A byte as a word. */
  function Widen(b: byte): bv16 {
    var h0 := b as nat;
    var h1 := h0 / 2;
    var h2 := h1 / 2;
    var h3 := h2 / 2;
    var h4 := h3 / 2;
    var h5 := h4 / 2;
    var h6 := h5 / 2;
    var h7 := h6 / 2;
    Pack(IsOdd(h7), IsOdd(h6), IsOdd(h5), IsOdd(h4), IsOdd(h3), IsOdd(h2), IsOdd(h1), IsOdd(h0))
  }

  function Absorb(crc: bv16, b: bv16): bv16 {
    crc ^ (b << 8)
  }

  function Step(crc: bv16, b: byte): bv16 {
    ShiftByte(Absorb(crc, Widen(b)))
  }

  function Crc(crc: bv16, data: seq<byte>): bv16
    decreases |data|
  {
    if data == [] then crc else Crc(Step(crc, data[0]), data[1..])
  }

  /** A checksum can be computed piece by piece. */
  lemma {:induction false} CrcOfConcatenation(crc: bv16, a: seq<byte>, b: seq<byte>)
    ensures Crc(crc, a + b) == Crc(Crc(crc, a), b)
    decreases |a|
  {
    hide Step;
    if a == [] {
      assert a + b == b;
    } else {
      CrcOfConcatenation(Step(crc, a[0]), a[1..], b);
      assert (a + b)[1..] == a[1..] + b;
    }
  }

  lemma CrcOfSnoc(crc: bv16, data: seq<byte>, b: byte)
    ensures Crc(crc, data + [b]) == Step(Crc(crc, data), b)
  {
    hide Step;
    CrcOfConcatenation(crc, data, [b]);
    assert Crc(Crc(crc, data), [b]) == Crc(Step(Crc(crc, data), b), []);
  }

  // ---- One changed byte is always noticed ----

  lemma PackedBits(b7: bool, b6: bool, b5: bool, b4: bool, b3: bool, b2: bool, b1: bool, b0: bool)
    ensures var w := Pack(b7, b6, b5, b4, b3, b2, b1, b0);
            && w <= 0xff
            && (w & 0x80 != 0) == b7 && (w & 0x40 != 0) == b6 && (w & 0x20 != 0) == b5 && (w & 0x10 != 0) == b4
            && (w & 0x08 != 0) == b3 && (w & 0x04 != 0) == b2 && (w & 0x02 != 0) == b1 && (w & 0x01 != 0) == b0
  {
  }

  lemma SameHalf(b: nat, c: nat)
    requires IsOdd(b) == IsOdd(c) && b / 2 == c / 2
    ensures b == c
  {
  }

  lemma WidenedByte(b: byte)
    ensures Widen(b) <= 0xff
  {
    hide Pack, IsOdd;
    var h1 := b as nat / 2;
    var h2 := h1 / 2;
    var h3 := h2 / 2;
    var h4 := h3 / 2;
    var h5 := h4 / 2;
    var h6 := h5 / 2;
    PackedBits(IsOdd(h6 / 2), IsOdd(h6), IsOdd(h5), IsOdd(h4), IsOdd(h3), IsOdd(h2), IsOdd(h1), IsOdd(b as nat));
  }

  lemma BitsOfWidened(b: byte)
    ensures var w, h4 := Widen(b), b as nat / 2 / 2 / 2 / 2;
            && (w & 0x01 != 0) == IsOdd(b as nat) && (w & 0x02 != 0) == IsOdd(b as nat / 2)
            && (w & 0x04 != 0) == IsOdd(b as nat / 2 / 2) && (w & 0x08 != 0) == IsOdd(b as nat / 2 / 2 / 2)
            && (w & 0x10 != 0) == IsOdd(h4) && (w & 0x20 != 0) == IsOdd(h4 / 2)
            && (w & 0x40 != 0) == IsOdd(h4 / 2 / 2) && (w & 0x80 != 0) == IsOdd(h4 / 2 / 2 / 2)
  {
    hide Pack, IsOdd;
    var h1 := b as nat / 2;
    var h2 := h1 / 2;
    var h3 := h2 / 2;
    var h4 := h3 / 2;
    var h5 := h4 / 2;
    var h6 := h5 / 2;
    PackedBits(IsOdd(h6 / 2), IsOdd(h6), IsOdd(h5), IsOdd(h4), IsOdd(h3), IsOdd(h2), IsOdd(h1), IsOdd(b as nat));
  }

  lemma SameNibble(b: nat, c: nat)
    requires IsOdd(b) == IsOdd(c) && IsOdd(b / 2) == IsOdd(c / 2)
    requires IsOdd(b / 2 / 2) == IsOdd(c / 2 / 2) && IsOdd(b / 2 / 2 / 2) == IsOdd(c / 2 / 2 / 2)
    requires b / 2 / 2 / 2 / 2 == c / 2 / 2 / 2 / 2
    ensures b == c
  {
    hide IsOdd;
    SameHalf(b / 2 / 2 / 2, c / 2 / 2 / 2);
    SameHalf(b / 2 / 2, c / 2 / 2);
    SameHalf(b / 2, c / 2);
    SameHalf(b, c);
  }

  lemma WidenIsInjective(b: byte, c: byte)
    requires Widen(b) == Widen(c)
    ensures b == c
  {
    hide Widen, IsOdd;
    BitsOfWidened(b);
    BitsOfWidened(c);
    SameNibble(b as nat / 2 / 2 / 2 / 2, c as nat / 2 / 2 / 2 / 2);
    SameNibble(b as nat, c as nat);
  }

  /** Undoes `ShiftBit`: the polynomial is odd, so the lowest bit tells whether a bit fell out. */
  function UnshiftBit(crc: bv16): bv16 {
    if crc & 1 != 0 then ((crc ^ 0x1021) >> 1) | 0x8000 else crc >> 1
  }

  lemma UnshiftReduced(x: bv16)
    requires x & 0x8000 != 0
    ensures UnshiftBit((x << 1) ^ 0x1021) == x
  {
    assert ((x << 1) ^ 0x1021) & 1 != 0;
    assert ((((x << 1) ^ 0x1021) ^ 0x1021) >> 1) | 0x8000 == x;
  }

  lemma UnshiftPlain(x: bv16)
    requires x & 0x8000 == 0
    ensures UnshiftBit(x << 1) == x
  {
    assert (x << 1) & 1 == 0;
  }

  lemma UnshiftBitUndoes(x: bv16)
    ensures UnshiftBit(ShiftBit(x)) == x
  {
    hide UnshiftBit;
    if x & 0x8000 != 0 {
      UnshiftReduced(x);
    } else {
      UnshiftPlain(x);
    }
  }

  function UnshiftByte(crc: bv16): bv16 {
    UnshiftBit(UnshiftBit(UnshiftBit(UnshiftBit(UnshiftBit(UnshiftBit(UnshiftBit(UnshiftBit(crc))))))))
  }

  lemma UnshiftByteUndoes(x: bv16)
    ensures UnshiftByte(ShiftByte(x)) == x
  {
    hide ShiftBit, UnshiftBit;
    forall y {
      UnshiftBitUndoes(y);
    }
  }

  lemma AbsorbIsInjective(x: bv16, y: bv16, b: bv16, c: bv16)
    requires b <= 0xff && c <= 0xff
    ensures Absorb(Absorb(x, b), b) == x
    ensures (Absorb(x, b) ^ x) >> 8 == b
  {
  }

  lemma StepIsInjective(x: bv16, y: bv16, b: byte, c: byte)
    ensures Step(x, b) == Step(y, b) ==> x == y
    ensures Step(x, b) == Step(x, c) ==> b == c
  {
    hide ShiftByte, UnshiftByte, Absorb, Widen;
    WidenedByte(b);
    WidenedByte(c);
    UnshiftByteUndoes(Absorb(x, Widen(b)));
    UnshiftByteUndoes(Absorb(y, Widen(b)));
    UnshiftByteUndoes(Absorb(x, Widen(c)));
    AbsorbIsInjective(x, y, Widen(b), Widen(c));
    AbsorbIsInjective(y, x, Widen(b), Widen(c));
    AbsorbIsInjective(x, y, Widen(c), Widen(b));
    if Widen(b) == Widen(c) {
      WidenIsInjective(b, c);
    }
  }

  lemma {:induction false} CrcIsInjective(x: bv16, y: bv16, data: seq<byte>)
    requires Crc(x, data) == Crc(y, data)
    ensures x == y
    decreases |data|
  {
    hide Step;
    if data != [] {
      CrcIsInjective(Step(x, data[0]), Step(y, data[0]), data[1..]);
      StepIsInjective(x, y, data[0], data[0]);
    }
  }

  /** Messages of the same length that differ in exactly one byte have different checksums. */
  lemma OneChangedByteIsDetected(crc: bv16, before: seq<byte>, b: byte, c: byte, after: seq<byte>)
    requires b != c
    ensures Crc(crc, before + [b] + after) != Crc(crc, before + [c] + after)
  {
    hide Step;
    var x := Crc(crc, before);
    CrcOfSnoc(crc, before, b);
    CrcOfSnoc(crc, before, c);
    CrcOfConcatenation(crc, before + [b], after);
    CrcOfConcatenation(crc, before + [c], after);
    if Crc(Step(x, b), after) == Crc(Step(x, c), after) {
      CrcIsInjective(Step(x, b), Step(x, c), after);
      StepIsInjective(x, x, b, c);
    }
  }

  // ---- The bitwise variant: the register is 32 bits wide ----

  lemma WideTopBit(crc: bv16)
    ensures ((crc as bv32) << 1) & 0x1_0000 != 0 <==> crc & 0x8000 != 0
  {
  }

  lemma WideReduced(crc: bv16)
    ensures (((crc as bv32) << 1) ^ 0x1021) & 0xffff == ((crc << 1) ^ 0x1021) as bv32
  {
  }

  lemma WidePlain(crc: bv16)
    requires crc & 0x8000 == 0
    ensures (crc as bv32) << 1 == (crc << 1) as bv32
  {
  }

  lemma WideAbsorb(word: bv32, crc: bv16, b: bv16)
    requires b <= 0xff && Holds(word, crc)
    ensures Holds(word ^ ((b as bv32) << 8), Absorb(crc, b))
  {
  }

  /** The wide register holds the 16-bit value `x`. */
  ghost predicate Holds(word: bv32, x: bv16) {
    word == x as bv32
  }

  /** The body of the inner loop. */
  function ShiftWord(crc: bv32): bv32 {
    var shifted := crc << 1;
    if shifted & 0x1_0000 != 0 then (shifted ^ 0x1021) & 0xffff else shifted
  }

  lemma WideShift(word: bv32, crc: bv16)
    requires Holds(word, crc)
    ensures Holds(ShiftWord(word), ShiftBit(crc))
  {
    WideTopBit(crc);
    WideReduced(crc);
    if crc & 0x8000 == 0 {
      WidePlain(crc);
    }
  }

  function ShiftBits(crc: bv16, n: nat): bv16
    decreases n
  {
    if n == 0 then crc else ShiftBits(ShiftBit(crc), n - 1)
  }

  lemma EightBits(crc: bv16)
    ensures ShiftBits(crc, 8) == ShiftByte(crc)
  {
    hide ShiftBit;
    var c4 := ShiftBit(ShiftBit(ShiftBit(ShiftBit(crc))));
    var c6 := ShiftBit(ShiftBit(c4));
    assert ShiftBits(c6, 2) == ShiftBits(ShiftBit(c6), 1) == ShiftByte(crc);
    assert ShiftBits(c4, 4) == ShiftBits(ShiftBit(c4), 3) == ShiftBits(c6, 2);
    var c2 := ShiftBit(ShiftBit(crc));
    assert ShiftBits(c2, 6) == ShiftBits(ShiftBit(c2), 5) == ShiftBits(c4, 4);
    assert ShiftBits(crc, 8) == ShiftBits(ShiftBit(crc), 7) == ShiftBits(c2, 6);
  }

  /** The inner loop: eight shifts of a register that holds a 16-bit value. */
  method ShiftWide(start: bv32, ghost narrow: bv16) returns (crc: bv32)
    requires Holds(start, narrow)
    ensures Holds(crc, ShiftByte(narrow))
  {
    hide ShiftBit, ShiftWord, ShiftByte, Holds;
    EightBits(narrow);
    crc := start;
    ghost var x := narrow;
    for bit := 0 to 8
      invariant Holds(crc, x)
      invariant ShiftBits(x, 8 - bit) == ShiftByte(narrow)
    {
      WideShift(crc, x);
      crc := ShiftWord(crc);
      x := ShiftBit(x);
    }
  }

  method ComputeBitwise(initial: bv16, data: seq<byte>) returns (crc16: bv16)
    ensures crc16 == Crc(initial, data)
  {
    hide ShiftByte, Absorb, Widen;
    var crc := initial as bv32;
    ghost var narrow := initial;
    for i := 0 to |data|
      invariant Holds(crc, narrow) && narrow == Crc(initial, data[..i])
    {
      var b := Widen(data[i]);
      WidenedByte(data[i]);
      WideAbsorb(crc, narrow, b);
      crc := ShiftWide(crc ^ ((b as bv32) << 8), Absorb(narrow, b));
      CrcOfSnoc(initial, data[..i], data[i]);
      assert data[..i] + [data[i]] == data[..i + 1];
      narrow := Step(narrow, data[i]);
    }
    assert data[..|data|] == data;
    crc16 := crc as bv16;
  }

  // ---- The table variant ----

  /** The lookup table, sixteen entries a row. */
  const TABLE: seq<seq<bv16>> := [
    [0x0000, 0x1021, 0x2042, 0x3063, 0x4084, 0x50a5, 0x60c6, 0x70e7, 0x8108, 0x9129, 0xa14a, 0xb16b, 0xc18c, 0xd1ad, 0xe1ce, 0xf1ef],
    [0x1231, 0x0210, 0x3273, 0x2252, 0x52b5, 0x4294, 0x72f7, 0x62d6, 0x9339, 0x8318, 0xb37b, 0xa35a, 0xd3bd, 0xc39c, 0xf3ff, 0xe3de],
    [0x2462, 0x3443, 0x0420, 0x1401, 0x64e6, 0x74c7, 0x44a4, 0x5485, 0xa56a, 0xb54b, 0x8528, 0x9509, 0xe5ee, 0xf5cf, 0xc5ac, 0xd58d],
    [0x3653, 0x2672, 0x1611, 0x0630, 0x76d7, 0x66f6, 0x5695, 0x46b4, 0xb75b, 0xa77a, 0x9719, 0x8738, 0xf7df, 0xe7fe, 0xd79d, 0xc7bc],
    [0x48c4, 0x58e5, 0x6886, 0x78a7, 0x0840, 0x1861, 0x2802, 0x3823, 0xc9cc, 0xd9ed, 0xe98e, 0xf9af, 0x8948, 0x9969, 0xa90a, 0xb92b],
    [0x5af5, 0x4ad4, 0x7ab7, 0x6a96, 0x1a71, 0x0a50, 0x3a33, 0x2a12, 0xdbfd, 0xcbdc, 0xfbbf, 0xeb9e, 0x9b79, 0x8b58, 0xbb3b, 0xab1a],
    [0x6ca6, 0x7c87, 0x4ce4, 0x5cc5, 0x2c22, 0x3c03, 0x0c60, 0x1c41, 0xedae, 0xfd8f, 0xcdec, 0xddcd, 0xad2a, 0xbd0b, 0x8d68, 0x9d49],
    [0x7e97, 0x6eb6, 0x5ed5, 0x4ef4, 0x3e13, 0x2e32, 0x1e51, 0x0e70, 0xff9f, 0xefbe, 0xdfdd, 0xcffc, 0xbf1b, 0xaf3a, 0x9f59, 0x8f78],
    [0x9188, 0x81a9, 0xb1ca, 0xa1eb, 0xd10c, 0xc12d, 0xf14e, 0xe16f, 0x1080, 0x00a1, 0x30c2, 0x20e3, 0x5004, 0x4025, 0x7046, 0x6067],
    [0x83b9, 0x9398, 0xa3fb, 0xb3da, 0xc33d, 0xd31c, 0xe37f, 0xf35e, 0x02b1, 0x1290, 0x22f3, 0x32d2, 0x4235, 0x5214, 0x6277, 0x7256],
    [0xb5ea, 0xa5cb, 0x95a8, 0x8589, 0xf56e, 0xe54f, 0xd52c, 0xc50d, 0x34e2, 0x24c3, 0x14a0, 0x0481, 0x7466, 0x6447, 0x5424, 0x4405],
    [0xa7db, 0xb7fa, 0x8799, 0x97b8, 0xe75f, 0xf77e, 0xc71d, 0xd73c, 0x26d3, 0x36f2, 0x0691, 0x16b0, 0x6657, 0x7676, 0x4615, 0x5634],
    [0xd94c, 0xc96d, 0xf90e, 0xe92f, 0x99c8, 0x89e9, 0xb98a, 0xa9ab, 0x5844, 0x4865, 0x7806, 0x6827, 0x18c0, 0x08e1, 0x3882, 0x28a3],
    [0xcb7d, 0xdb5c, 0xeb3f, 0xfb1e, 0x8bf9, 0x9bd8, 0xabbb, 0xbb9a, 0x4a75, 0x5a54, 0x6a37, 0x7a16, 0x0af1, 0x1ad0, 0x2ab3, 0x3a92],
    [0xfd2e, 0xed0f, 0xdd6c, 0xcd4d, 0xbdaa, 0xad8b, 0x9de8, 0x8dc9, 0x7c26, 0x6c07, 0x5c64, 0x4c45, 0x3ca2, 0x2c83, 0x1ce0, 0x0cc1],
    [0xef1f, 0xff3e, 0xcf5d, 0xdf7c, 0xaf9b, 0xbfba, 0x8fd9, 0x9ff8, 0x6e17, 0x7e36, 0x4e55, 0x5e74, 0x2e93, 0x3eb2, 0x0ed1, 0x1ef0]
  ]

  lemma TableSize()
    ensures |TABLE| == 16 && forall h :: 0 <= h < 16 ==> |TABLE[h]| == 16
  {
  }

  function Lookup(index: bv16): bv16
    requires index <= 0xff
  {
    TableSize();
    TABLE[(index >> 4) as int][(index & 0xf) as int]
  }

  function Sum(x: bv16, y: bv16): bv16 {
    x ^ y
  }

  // The first row and the first column of the table, and how all other entries follow from them.

  lemma FirstRow0()
    ensures |TABLE| == 16 && forall h :: 0 <= h < 16 ==> |TABLE[h]| == 16
    ensures TABLE[0][0] == ShiftByte(0x000)
    ensures TABLE[0][1] == ShiftByte(0x100)
    ensures TABLE[0][2] == ShiftByte(0x200)
    ensures TABLE[0][3] == ShiftByte(0x300)
  {
  }

  lemma FirstRow1()
    ensures |TABLE| == 16 && forall h :: 0 <= h < 16 ==> |TABLE[h]| == 16
    ensures TABLE[0][4] == ShiftByte(0x400)
    ensures TABLE[0][5] == ShiftByte(0x500)
    ensures TABLE[0][6] == ShiftByte(0x600)
    ensures TABLE[0][7] == ShiftByte(0x700)
  {
  }

  lemma FirstRow2()
    ensures |TABLE| == 16 && forall h :: 0 <= h < 16 ==> |TABLE[h]| == 16
    ensures TABLE[0][8] == ShiftByte(0x800)
    ensures TABLE[0][9] == ShiftByte(0x900)
    ensures TABLE[0][10] == ShiftByte(0xa00)
    ensures TABLE[0][11] == ShiftByte(0xb00)
  {
  }

  lemma FirstRow3()
    ensures |TABLE| == 16 && forall h :: 0 <= h < 16 ==> |TABLE[h]| == 16
    ensures TABLE[0][12] == ShiftByte(0xc00)
    ensures TABLE[0][13] == ShiftByte(0xd00)
    ensures TABLE[0][14] == ShiftByte(0xe00)
    ensures TABLE[0][15] == ShiftByte(0xf00)
  {
  }

  lemma FirstColumn0()
    ensures |TABLE| == 16 && forall h :: 0 <= h < 16 ==> |TABLE[h]| == 16
    ensures TABLE[0][0] == ShiftByte(0x0000)
    ensures TABLE[1][0] == ShiftByte(0x1000)
    ensures TABLE[2][0] == ShiftByte(0x2000)
    ensures TABLE[3][0] == ShiftByte(0x3000)
  {
  }

  lemma FirstColumn1()
    ensures |TABLE| == 16 && forall h :: 0 <= h < 16 ==> |TABLE[h]| == 16
    ensures TABLE[4][0] == ShiftByte(0x4000)
    ensures TABLE[5][0] == ShiftByte(0x5000)
    ensures TABLE[6][0] == ShiftByte(0x6000)
    ensures TABLE[7][0] == ShiftByte(0x7000)
  {
  }

  lemma FirstColumn2()
    ensures |TABLE| == 16 && forall h :: 0 <= h < 16 ==> |TABLE[h]| == 16
    ensures TABLE[8][0] == ShiftByte(0x8000)
    ensures TABLE[9][0] == ShiftByte(0x9000)
    ensures TABLE[10][0] == ShiftByte(0xa000)
    ensures TABLE[11][0] == ShiftByte(0xb000)
  {
  }

  lemma FirstColumn3()
    ensures |TABLE| == 16 && forall h :: 0 <= h < 16 ==> |TABLE[h]| == 16
    ensures TABLE[12][0] == ShiftByte(0xc000)
    ensures TABLE[13][0] == ShiftByte(0xd000)
    ensures TABLE[14][0] == ShiftByte(0xe000)
    ensures TABLE[15][0] == ShiftByte(0xf000)
  {
  }

  lemma Rows0(l: int)
    requires 0 <= l < 16
    ensures |TABLE| == 16 && |TABLE[0]| == |TABLE[0]| == |TABLE[1]| == 16
    ensures TABLE[0][l] == Sum(TABLE[0][0], TABLE[0][l])
    ensures TABLE[1][l] == Sum(TABLE[1][0], TABLE[0][l])
  {
  }

  lemma Rows1(l: int)
    requires 0 <= l < 16
    ensures |TABLE| == 16 && |TABLE[0]| == |TABLE[2]| == |TABLE[3]| == 16
    ensures TABLE[2][l] == Sum(TABLE[2][0], TABLE[0][l])
    ensures TABLE[3][l] == Sum(TABLE[3][0], TABLE[0][l])
  {
  }

  lemma Rows2(l: int)
    requires 0 <= l < 16
    ensures |TABLE| == 16 && |TABLE[0]| == |TABLE[4]| == |TABLE[5]| == 16
    ensures TABLE[4][l] == Sum(TABLE[4][0], TABLE[0][l])
    ensures TABLE[5][l] == Sum(TABLE[5][0], TABLE[0][l])
  {
  }

  lemma Rows3(l: int)
    requires 0 <= l < 16
    ensures |TABLE| == 16 && |TABLE[0]| == |TABLE[6]| == |TABLE[7]| == 16
    ensures TABLE[6][l] == Sum(TABLE[6][0], TABLE[0][l])
    ensures TABLE[7][l] == Sum(TABLE[7][0], TABLE[0][l])
  {
  }

  lemma Rows4(l: int)
    requires 0 <= l < 16
    ensures |TABLE| == 16 && |TABLE[0]| == |TABLE[8]| == |TABLE[9]| == 16
    ensures TABLE[8][l] == Sum(TABLE[8][0], TABLE[0][l])
    ensures TABLE[9][l] == Sum(TABLE[9][0], TABLE[0][l])
  {
  }

  lemma Rows5(l: int)
    requires 0 <= l < 16
    ensures |TABLE| == 16 && |TABLE[0]| == |TABLE[10]| == |TABLE[11]| == 16
    ensures TABLE[10][l] == Sum(TABLE[10][0], TABLE[0][l])
    ensures TABLE[11][l] == Sum(TABLE[11][0], TABLE[0][l])
  {
  }

  lemma Rows6(l: int)
    requires 0 <= l < 16
    ensures |TABLE| == 16 && |TABLE[0]| == |TABLE[12]| == |TABLE[13]| == 16
    ensures TABLE[12][l] == Sum(TABLE[12][0], TABLE[0][l])
    ensures TABLE[13][l] == Sum(TABLE[13][0], TABLE[0][l])
  {
  }

  lemma Rows7(l: int)
    requires 0 <= l < 16
    ensures |TABLE| == 16 && |TABLE[0]| == |TABLE[14]| == |TABLE[15]| == 16
    ensures TABLE[14][l] == Sum(TABLE[14][0], TABLE[0][l])
    ensures TABLE[15][l] == Sum(TABLE[15][0], TABLE[0][l])
  {
  }

  lemma FirstColumn(h: bv16)
    requires h <= 0xf
    ensures |TABLE| == 16 && |TABLE[h as int]| == 16
    ensures TABLE[h as int][0] == ShiftByte(h << 12)
  {
    hide ShiftByte;
    FirstColumn0();
    FirstColumn1();
    FirstColumn2();
    FirstColumn3();
  }

  lemma FirstRow(l: bv16)
    requires l <= 0xf
    ensures |TABLE| == 16 && |TABLE[0]| == 16
    ensures TABLE[0][l as int] == ShiftByte(l << 8)
  {
    hide ShiftByte;
    FirstRow0();
    FirstRow1();
    FirstRow2();
    FirstRow3();
  }

  lemma Rows(h: int, l: int)
    requires 0 <= h < 16 && 0 <= l < 16
    ensures |TABLE| == 16 && |TABLE[h]| == |TABLE[0]| == 16
    ensures TABLE[h][l] == Sum(TABLE[h][0], TABLE[0][l])
  {
    hide TABLE, Sum;
    match h / 2
    case 0 => Rows0(l);
    case 1 => Rows1(l);
    case 2 => Rows2(l);
    case 3 => Rows3(l);
    case 4 => Rows4(l);
    case 5 => Rows5(l);
    case 6 => Rows6(l);
    case _ => Rows7(l);
  }

  // Checksums are linear: the register of a sum is the sum of the registers.

  lemma TopBitOfSum(x: bv16, y: bv16)
    ensures ((x ^ y) & 0x8000 != 0) == ((x & 0x8000 != 0) != (y & 0x8000 != 0))
  {
  }

  lemma ShiftReduced(x: bv16)
    requires x & 0x8000 != 0
    ensures ShiftBit(x) == (x << 1) ^ 0x1021
  {
  }

  lemma ShiftPlain(x: bv16)
    requires x & 0x8000 == 0
    ensures ShiftBit(x) == x << 1
  {
  }

  lemma ShiftedSum(x: bv16, y: bv16)
    ensures (x ^ y) << 1 == (x << 1) ^ (y << 1)
    ensures (x ^ y) << 1 == ((x << 1) ^ 0x1021) ^ ((y << 1) ^ 0x1021)
    ensures ((x ^ y) << 1) ^ 0x1021 == ((x << 1) ^ 0x1021) ^ (y << 1)
  {
  }

  lemma SumOfPlain(x: bv16, y: bv16)
    requires x & 0x8000 == 0 && y & 0x8000 == 0
    ensures ShiftBit(x ^ y) == ShiftBit(x) ^ ShiftBit(y)
  {
    hide ShiftBit;
    TopBitOfSum(x, y);
    ShiftPlain(x);
    ShiftPlain(y);
    ShiftPlain(x ^ y);
    ShiftedSum(x, y);
  }

  lemma SumOfReduced(x: bv16, y: bv16)
    requires x & 0x8000 != 0 && y & 0x8000 != 0
    ensures ShiftBit(x ^ y) == ShiftBit(x) ^ ShiftBit(y)
  {
    hide ShiftBit;
    TopBitOfSum(x, y);
    ShiftReduced(x);
    ShiftReduced(y);
    ShiftPlain(x ^ y);
    ShiftedSum(x, y);
  }

  lemma SumOfReducedAndPlain(x: bv16, y: bv16)
    requires x & 0x8000 != 0 && y & 0x8000 == 0
    ensures ShiftBit(x ^ y) == ShiftBit(x) ^ ShiftBit(y)
  {
    hide ShiftBit;
    TopBitOfSum(x, y);
    ShiftReduced(x);
    ShiftPlain(y);
    ShiftReduced(x ^ y);
    ShiftedSum(x, y);
  }

  lemma SumCommutes(x: bv16, y: bv16)
    ensures x ^ y == y ^ x
  {
  }

  lemma ShiftBitIsLinear(x: bv16, y: bv16)
    ensures ShiftBit(Sum(x, y)) == Sum(ShiftBit(x), ShiftBit(y))
  {
    hide ShiftBit;
    if x & 0x8000 != 0 {
      if y & 0x8000 != 0 {
        SumOfReduced(x, y);
      } else {
        SumOfReducedAndPlain(x, y);
      }
    } else {
      if y & 0x8000 != 0 {
        SumOfReducedAndPlain(y, x);
        SumCommutes(x, y);
        SumCommutes(ShiftBit(x), ShiftBit(y));
      } else {
        SumOfPlain(x, y);
      }
    }
  }

  lemma ShiftByteIsLinear(x: bv16, y: bv16)
    ensures ShiftByte(Sum(x, y)) == Sum(ShiftByte(x), ShiftByte(y))
  {
    hide ShiftBit, Sum;
    var x1, y1 := ShiftBit(x), ShiftBit(y);
    var x2, y2 := ShiftBit(x1), ShiftBit(y1);
    var x3, y3 := ShiftBit(x2), ShiftBit(y2);
    var x4, y4 := ShiftBit(x3), ShiftBit(y3);
    var x5, y5 := ShiftBit(x4), ShiftBit(y4);
    var x6, y6 := ShiftBit(x5), ShiftBit(y5);
    var x7, y7 := ShiftBit(x6), ShiftBit(y6);
    ShiftBitIsLinear(x, y);
    ShiftBitIsLinear(x1, y1);
    ShiftBitIsLinear(x2, y2);
    ShiftBitIsLinear(x3, y3);
    ShiftBitIsLinear(x4, y4);
    ShiftBitIsLinear(x5, y5);
    ShiftBitIsLinear(x6, y6);
    ShiftBitIsLinear(x7, y7);
  }

  /** A byte that enters at the low end is shifted up without reduction. */
  lemma ShiftLowByte(x: bv16)
    requires x <= 0xff
    ensures ShiftByte(x) == HighByte(x)
  {
  }

  function HighByte(crc: bv16): bv16 {
    crc << 8
  }

  lemma SplitIndex(index: bv16)
    requires index <= 0xff
    ensures HighByte(index) == Sum((index >> 4) << 12, (index & 0xf) << 8)
  {
  }

  lemma TableIsRight(index: bv16)
    requires index <= 0xff
    ensures Lookup(index) == ShiftByte(HighByte(index))
  {
    hide TABLE, ShiftByte, Sum, HighByte;
    var h, l := index >> 4, index & 0xf;
    Rows(h as int, l as int);
    FirstColumn(h);
    FirstRow(l);
    SplitIndex(index);
    ShiftByteIsLinear(h << 12, l << 8);
  }

  /** The table index for a register and the next byte. */
  function Index(crc: bv16, b: bv16): (index: bv16)
    ensures index <= 0xff
  {
    ((crc >> 8) ^ b) & 0xff
  }

  function LowByte(crc: bv16): (low: bv16)
    ensures low <= 0xff
  {
    crc & 0xff
  }

  lemma SplitRegister(crc: bv16, b: bv16)
    requires b <= 0xff
    ensures Absorb(crc, b) == Sum(HighByte(Index(crc, b)), LowByte(crc))
  {
  }

  lemma HighOfLow(crc: bv16)
    ensures HighByte(LowByte(crc)) == HighByte(crc)
  {
  }

  function TableStep(crc: bv16, b: bv16): bv16 {
    Sum(Lookup(Index(crc, b)), HighByte(crc))
  }

  /** One lookup does the work of eight shifts. */
  lemma TableStepIsStep(crc: bv16, b: byte)
    ensures TableStep(crc, Widen(b)) == Step(crc, b)
  {
    hide Lookup, ShiftByte, Sum, Widen, Absorb, Index, LowByte, HighByte;
    WidenedByte(b);
    SplitRegister(crc, Widen(b));
    HighOfLow(crc);
    TableIsRight(Index(crc, Widen(b)));
    ShiftByteIsLinear(HighByte(Index(crc, Widen(b))), LowByte(crc));
    ShiftLowByte(LowByte(crc));
  }

  method ComputeWithTable(initial: bv16, data: seq<byte>) returns (crc: bv16)
    ensures crc == Crc(initial, data)
  {
    hide TableStep, Step;
    crc := initial;
    for i := 0 to |data|
      invariant crc == Crc(initial, data[..i])
    {
      TableStepIsStep(crc, data[i]);
      crc := TableStep(crc, Widen(data[i]));
      CrcOfSnoc(initial, data[..i], data[i]);
      assert data[..i] + [data[i]] == data[..i + 1];
    }
    assert data[..|data|] == data;
  }
}
