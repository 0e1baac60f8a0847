/** The layout of a coredump, and what is kept when there is not enough storage
  * (components/panics/src/memfault_coredump.c). */
module CoredumpLayout {
  import opened Bytes

  const HEADER_SIZE := 12
  const FOOTER_SIZE := 16
  const BLOCK_HEADER_SIZE := 12
  const MAGIC := 0x45524f43
  const VERSION := 2
  const FOOTER_MAGIC := 0x504d5544

  const REGISTERS: byte := 0
  const MEMORY: byte := 1
  const DEVICE_SERIAL: byte := 2
  const HARDWARE_VERSION: byte := 4
  const TRACE_REASON: byte := 5
  const PADDING: byte := 6
  const MACHINE_TYPE: byte := 7
  const ARM_MPU: byte := 9
  const SOFTWARE_VERSION: byte := 10
  const SOFTWARE_TYPE: byte := 11
  const BUILD_ID: byte := 12

  // ---- Bytes ----

  datatype Block = Block(kind: byte, address: nat, payload: seq<byte>)

  predicate Storable(b: Block) {
    b.address < UINT32_LIMIT && |b.payload| < UINT32_LIMIT
  }

  function BlockHeader(b: Block): (s: seq<byte>)
    requires Storable(b)
    ensures |s| == BLOCK_HEADER_SIZE
  {
    [b.kind, 0, 0, 0] + Word(b.address) + Word(|b.payload|)
  }

  function BlockBytes(b: Block): seq<byte>
    requires Storable(b)
  {
    BlockHeader(b) + b.payload
  }

  predicate AllStorable(blocks: seq<Block>) {
    forall i :: 0 <= i < |blocks| ==> Storable(blocks[i])
  }

  function Encode(blocks: seq<Block>): seq<byte>
    requires AllStorable(blocks)
  {
    if blocks == [] then [] else Encode(blocks[..|blocks| - 1]) + BlockBytes(blocks[|blocks| - 1])
  }

  function Header(total: nat): (s: seq<byte>)
    requires total < UINT32_LIMIT
    ensures |s| == HEADER_SIZE
  {
    Word(MAGIC) + Word(VERSION) + Word(total)
  }

  function Footer(truncated: bool): (s: seq<byte>)
    ensures |s| == FOOTER_SIZE
  {
    Word(FOOTER_MAGIC) + Word(if truncated then 1 else 0) + Word(0) + Word(0)
  }

  /** The header and the footer, byte by byte; numbers have the low byte first. */
  lemma EndsByByte(total: nat, truncated: bool)
    requires total < UINT32_LIMIT
    ensures Header(total) ==
            [0x43, 0x4f, 0x52, 0x45, 2, 0, 0, 0,
             (total % 0x100) as byte, (total / 0x100 % 0x100) as byte,
             (total / 0x1_0000 % 0x100) as byte, (total / 0x100_0000) as byte]
    ensures Footer(truncated) ==
            [0x44, 0x55, 0x4d, 0x50, if truncated then 1 else 0, 0, 0, 0, 0, 0, 0, 0, 0, 0, 0, 0]
  {
  }

  /** So is the header of a block. */
  lemma BlockByByte(b: Block)
    requires Storable(b)
    ensures var a, n := b.address, |b.payload|;
            BlockHeader(b) ==
            [b.kind, 0, 0, 0,
             (a % 0x100) as byte, (a / 0x100 % 0x100) as byte, (a / 0x1_0000 % 0x100) as byte, (a / 0x100_0000) as byte,
             (n % 0x100) as byte, (n / 0x100 % 0x100) as byte, (n / 0x1_0000 % 0x100) as byte, (n / 0x100_0000) as byte]
  {
    var a, n := b.address, |b.payload|;
    assert Word(a) == [(a % 0x100) as byte, (a / 0x100 % 0x100) as byte, (a / 0x1_0000 % 0x100) as byte, (a / 0x100_0000) as byte];
    hide Word;
  }

  /** Whether storage with these contents counts as holding a coredump. */
  predicate HasMagic(s: seq<byte>) {
    |s| >= 12 && FromWord(s[..4]) == 0x45524f43
  }

  // ---- Reading a coredump ----

  // What reads a coredump is not part of the device, so it does not share any constants with it.

  /** The blocks that tile `s` from its beginning to its end. */
  function ParseBlocks(s: seq<byte>): Option<seq<Block>>
    decreases |s|
  {
    if s == [] then Some([])
    else if |s| < 12 then None
    else
      var next := 12 + FromWord(s[8..12]);
      if next > |s| then None
      else
        match ParseBlocks(s[next..])
        case None => None
        case Some(rest) => Some([Block(s[0], FromWord(s[4..8]), s[12..next])] + rest)
  }

  datatype Coredump = Coredump(blocks: seq<Block>, truncated: bool)

  /** The coredump that storage holds: a header, blocks that go exactly to the footer, and the footer. */
  function Parse(s: seq<byte>): Option<Coredump> {
    if !HasMagic(s) || FromWord(s[4..8]) != 2 then None
    else
      var total := FromWord(s[8..12]);
      if total < 28 || total > |s| then None
      else
        var footer := s[total - 16..total];
        if FromWord(footer[..4]) != 0x504d5544 then None
        else
          match ParseBlocks(s[12..total - 16])
          case None => None
          case Some(blocks) => Some(Coredump(blocks, FromWord(footer[4..8]) % 2 == 1))
  }

  lemma HeaderParts(a: seq<byte>, b: seq<byte>, c: seq<byte>, d: seq<byte>)
    requires |a| == |b| == |c| == 4
    ensures var s := a + b + c + d;
            s[..4] == a && s[4..8] == b && s[8..12] == c && s[12..] == d
  {
  }

  lemma ParseFirst(b: Block, rest: seq<byte>)
    requires Storable(b)
    ensures var s, n := BlockBytes(b) + rest, BLOCK_HEADER_SIZE + |b.payload|;
            && n <= |s| && s[0] == b.kind && FromWord(s[4..8]) == b.address && FromWord(s[8..12]) == |b.payload|
            && s[BLOCK_HEADER_SIZE..n] == b.payload && s[n..] == rest
  {
    hide Word, FromWord;
    WordRoundTrip(b.address);
    WordRoundTrip(|b.payload|);
    var first := [b.kind, 0, 0, 0];
    HeaderParts(first, Word(b.address), Word(|b.payload|), b.payload + rest);
    Associate(first, Word(b.address), Word(|b.payload|), b.payload, rest);
  }

  lemma Associate(a: seq<byte>, b: seq<byte>, c: seq<byte>, d: seq<byte>, e: seq<byte>)
    ensures a + b + c + d + e == a + b + c + (d + e)
    ensures (a + b + c + d + e)[|a| + |b| + |c|..|a| + |b| + |c| + |d|] == d
    ensures (a + b + c + d + e)[|a| + |b| + |c| + |d|..] == e
  {
  }

  lemma {:induction false} ParseBehind(blocks: seq<Block>, rest: seq<byte>, more: seq<Block>)
    requires AllStorable(blocks) && ParseBlocks(rest) == Some(more)
    ensures ParseBlocks(Encode(blocks) + rest) == Some(blocks + more)
    decreases |blocks|
  {
    hide BlockBytes, Storable;
    if blocks == [] {
      assert [] + rest == rest && [] + more == more;
    } else {
      var b, front := blocks[|blocks| - 1], blocks[..|blocks| - 1];
      ParseOne(b, rest, more);
      ParseBehind(front, BlockBytes(b) + rest, [b] + more);
      Regroup(Encode(front), BlockBytes(b), rest);
      Regroup(front, [b], more);
      assert front + [b] == blocks;
    }
  }

  lemma ParseOne(b: Block, rest: seq<byte>, more: seq<Block>)
    requires Storable(b) && ParseBlocks(rest) == Some(more)
    ensures ParseBlocks(BlockBytes(b) + rest) == Some([b] + more)
  {
    hide BlockBytes, FromWord;
    ParseFirst(b, rest);
  }

  lemma EncodeRoundTrip(blocks: seq<Block>)
    requires AllStorable(blocks)
    ensures ParseBlocks(Encode(blocks)) == Some(blocks)
  {
    hide Encode, Storable;
    assert ParseBlocks([]) == Some([]);
    ParseBehind(blocks, [], []);
    assert Encode(blocks) + [] == Encode(blocks) && blocks + [] == blocks;
  }

  lemma FooterParts(truncated: bool)
    ensures var f := Footer(truncated);
            FromWord(f[..4]) == FOOTER_MAGIC && (FromWord(f[4..8]) % 2 == 1 <==> truncated)
  {
    hide Word, FromWord;
    WordRoundTrip(FOOTER_MAGIC);
    WordRoundTrip(if truncated then 1 else 0);
    HeaderParts(Word(FOOTER_MAGIC), Word(if truncated then 1 else 0), Word(0), Word(0));
  }

  /** A header, some bytes and a footer are read as the blocks that tile these bytes, if any do. */
  lemma SectionsParse(bytes: seq<byte>, truncated: bool, total: nat, behind: seq<byte>)
    requires total == HEADER_SIZE + |bytes| + FOOTER_SIZE < UINT32_LIMIT
    ensures var s := Header(total) + bytes + Footer(truncated) + behind;
            && HasMagic(s)
            && Parse(s) == match ParseBlocks(bytes)
                           case None => None
                           case Some(blocks) => Some(Coredump(blocks, truncated))
  {
    hide Word, FromWord, ParseBlocks, Footer, Header;
    FooterParts(truncated);
    var h, f := Header(total), Footer(truncated);
    Sections(h, bytes, f, behind);
    HeaderReadsBack(total, bytes, f, behind);
  }

  lemma HeaderReadsBack(total: nat, a: seq<byte>, b: seq<byte>, c: seq<byte>)
    requires total < UINT32_LIMIT
    ensures var s := Header(total) + a + b + c;
            FromWord(s[..4]) == MAGIC && FromWord(s[4..8]) == VERSION && FromWord(s[8..12]) == total
  {
    hide Word, FromWord;
    WordRoundTrip(MAGIC);
    WordRoundTrip(VERSION);
    WordRoundTrip(total);
    HeaderParts(Word(MAGIC), Word(VERSION), Word(total), a + b + c);
    Regroup(Header(total), a, b);
    Regroup(Header(total), a + b, c);
  }

  /** What a save leaves in the storage is read back as the blocks it wrote. */
  lemma ImageParses(blocks: seq<Block>, truncated: bool, total: nat, behind: seq<byte>)
    requires AllStorable(blocks) && total == HEADER_SIZE + |Encode(blocks)| + FOOTER_SIZE < UINT32_LIMIT
    ensures Parse(Header(total) + Encode(blocks) + Footer(truncated) + behind) == Some(Coredump(blocks, truncated))
  {
    hide Encode, Storable, ParseBlocks, Footer, Header, Parse;
    SectionsParse(Encode(blocks), truncated, total, behind);
    EncodeRoundTrip(blocks);
  }

  lemma Sections(a: seq<byte>, b: seq<byte>, c: seq<byte>, d: seq<byte>)
    ensures var s := a + b + c + d;
            s[|a|..|a| + |b|] == b && s[|a| + |b|..|a| + |b| + |c|] == c
  {
  }
}
