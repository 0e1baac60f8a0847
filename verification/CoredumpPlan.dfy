/** Which blocks a coredump gets, when all writes succeed (components/panics/src/memfault_coredump.c). */
module CoredumpPlan {
  import opened Bytes
  import opened CoredumpLayout

  // ---- Writing blocks ----

  /** The blocks that were written, the offset behind them, and whether anything did not fit. */
  datatype Ctx = Ctx(blocks: seq<Block>, offset: nat, truncated: bool)

  const FIRST := Ctx([], HEADER_SIZE, false)

  function BlockSize(b: Block): nat {
    BLOCK_HEADER_SIZE + |b.payload|
  }

  function Add(c: Ctx, b: Block): Ctx {
    c.(blocks := c.blocks + [b], offset := c.offset + BlockSize(b))
  }

  function FreeBytes(offset: nat, limit: nat): nat {
    if limit > offset then limit - offset else 0
  }

  /** Without a limit, only the size is computed. */
  predicate Fits(c: Ctx, b: Block, limit: Option<nat>) {
    limit == None || FreeBytes(c.offset, limit.value) >= BlockSize(b)
  }

  /** How much of a payload there is room for: whole words. */
  function Room(offset: nat, limit: nat): nat {
    var free := FreeBytes(offset, limit);
    if free < BLOCK_HEADER_SIZE then 0 else (free - BLOCK_HEADER_SIZE) / 4 * 4
  }

  /** One block: it is written, or as much of it as fits, or nothing. The result says whether to go on. */
  function Put(c: Ctx, b: Block, wordOnly: bool, limit: Option<nat>): (Ctx, bool) {
    if b.payload == [] then (c, true)
    else if Fits(c, b, limit) then (Add(c, b), !(wordOnly && |b.payload| % 4 == 0 && c.truncated))
    else
      var t, n := c.(truncated := true), Room(c.offset, limit.value);
      if n == 0 || n > |b.payload| then (t, false) else (Add(t, b.(payload := b.payload[..n])), !wordOnly)
  }

  function PaddingBlock(n: nat): Block {
    Block(PADDING, 0, Repeat(0, n))
  }

  /** Brings the offset to a multiple of four, if there is room. */
  function Pad(c: Ctx, limit: Option<nat>): Ctx {
    if c.offset % 4 == 0 then c else Put(c, PaddingBlock(4 - c.offset % 4), false, limit).0
  }

  /** What is to be written: a block, maybe behind padding; nothing if its payload is empty. */
  datatype Piece = Piece(padded: bool, block: Block, wordOnly: bool)

  function PutPiece(c: Ctx, p: Piece, limit: Option<nat>): (Ctx, bool) {
    Put(if p.padded then Pad(c, limit) else c, p.block, p.wordOnly, limit)
  }

  function PutAll(c: Ctx, pieces: seq<Piece>, limit: Option<nat>): (Ctx, bool)
    decreases |pieces|
  {
    if pieces == [] then (c, true)
    else
      var (d, ok) := PutPiece(c, pieces[0], limit);
      if ok then PutAll(d, pieces[1..], limit) else (d, false)
  }

  // ---- Sizes ----

  predicate AllPiecesStorable(pieces: seq<Piece>) {
    forall i :: 0 <= i < |pieces| ==> Storable(pieces[i].block)
  }

  /** The offset is that behind the written blocks. */
  ghost predicate Consistent(c: Ctx) {
    AllStorable(c.blocks) && c.offset == HEADER_SIZE + |Encode(c.blocks)|
  }

  lemma AddIsConsistent(c: Ctx, b: Block)
    requires Consistent(c) && Storable(b)
    ensures Consistent(Add(c, b))
    ensures Encode(Add(c, b).blocks) == Encode(c.blocks) + BlockBytes(b)
  {
    assert (c.blocks + [b])[..|c.blocks|] == c.blocks;
  }

  lemma PutIsConsistent(c: Ctx, b: Block, wordOnly: bool, limit: Option<nat>)
    requires Consistent(c) && Storable(b)
    ensures Consistent(Put(c, b, wordOnly, limit).0)
  {
    hide Consistent, Room, Add;
    AddIsConsistent(c, b);
    if b.payload != [] && !Fits(c, b, limit) {
      var n := Room(c.offset, limit.value);
      if 0 < n <= |b.payload| {
        Flagged(c);
        AddIsConsistent(c.(truncated := true), b.(payload := b.payload[..n]));
      } else {
        Flagged(c);
      }
    }
  }

  lemma Flagged(c: Ctx)
    requires Consistent(c)
    ensures Consistent(c.(truncated := true))
  {
  }

  lemma PutPieceIsConsistent(c: Ctx, p: Piece, limit: Option<nat>)
    requires Consistent(c) && Storable(p.block)
    ensures Consistent(PutPiece(c, p, limit).0)
  {
    hide Consistent, Put;
    if p.padded {
      PutIsConsistent(c, PaddingBlock(4 - c.offset % 4), false, limit);
    }
    PutIsConsistent(if p.padded then Pad(c, limit) else c, p.block, p.wordOnly, limit);
  }

  lemma {:induction false} PutAllIsConsistent(c: Ctx, pieces: seq<Piece>, limit: Option<nat>)
    requires Consistent(c) && AllPiecesStorable(pieces)
    ensures Consistent(PutAll(c, pieces, limit).0)
    decreases |pieces|
  {
    hide Consistent, PutPiece, Storable;
    if pieces != [] {
      PutPieceIsConsistent(c, pieces[0], limit);
      PutAllIsConsistent(PutPiece(c, pieces[0], limit).0, pieces[1..], limit);
    }
  }

  // ---- The dry run is exact ----

  /** Nothing is ever taken back. */
  predicate After(c: Ctx, d: Ctx) {
    c.offset <= d.offset && (c.truncated ==> d.truncated)
  }

  /** What a step does with a limit: either the same as without, staying inside the limit, or it flags the
    * coredump as truncated because the offset would go beyond. */
  ghost predicate SameOrFlagged(limited: (Ctx, bool), dry: (Ctx, bool), limit: nat) {
    && (!limited.0.truncated ==> limited == dry && dry.0.offset <= limit)
    && (limited.0.truncated ==> dry.0.offset > limit)
    && dry.1 && !dry.0.truncated
  }

  lemma PutIsMonotone(c: Ctx, b: Block, wordOnly: bool, limit: Option<nat>)
    ensures After(c, Put(c, b, wordOnly, limit).0)
    ensures limit.Some? && c.offset <= limit.value ==> Put(c, b, wordOnly, limit).0.offset <= limit.value
  {
  }

  lemma PutPieceIsMonotone(c: Ctx, p: Piece, limit: Option<nat>)
    ensures After(c, PutPiece(c, p, limit).0)
    ensures limit.Some? && c.offset <= limit.value ==> PutPiece(c, p, limit).0.offset <= limit.value
  {
    hide Put;
    if p.padded && c.offset % 4 != 0 {
      PutIsMonotone(c, PaddingBlock(4 - c.offset % 4), false, limit);
    }
    PutIsMonotone(if p.padded then Pad(c, limit) else c, p.block, p.wordOnly, limit);
  }

  lemma {:induction false} PutAllIsMonotone(c: Ctx, pieces: seq<Piece>, limit: Option<nat>)
    ensures After(c, PutAll(c, pieces, limit).0)
    ensures limit.Some? && c.offset <= limit.value ==> PutAll(c, pieces, limit).0.offset <= limit.value
    decreases |pieces|
  {
    hide PutPiece;
    if pieces != [] {
      PutPieceIsMonotone(c, pieces[0], limit);
      PutAllIsMonotone(PutPiece(c, pieces[0], limit).0, pieces[1..], limit);
    }
  }

  lemma PutDry(c: Ctx, b: Block, wordOnly: bool, limit: nat)
    requires !c.truncated && c.offset <= limit
    ensures SameOrFlagged(Put(c, b, wordOnly, Some(limit)), Put(c, b, wordOnly, None), limit)
  {
  }

  lemma DryNeverFlags(c: Ctx, b: Block, wordOnly: bool)
    requires !c.truncated
    ensures var (d, ok) := Put(c, b, wordOnly, None); ok && !d.truncated && d.offset >= c.offset
  {
  }

  lemma PutPieceDry(c: Ctx, p: Piece, limit: nat)
    requires !c.truncated && c.offset <= limit
    ensures SameOrFlagged(PutPiece(c, p, Some(limit)), PutPiece(c, p, None), limit)
  {
    hide Put;
    if p.padded && c.offset % 4 != 0 {
      var pad := PaddingBlock(4 - c.offset % 4);
      PutDry(c, pad, false, limit);
      var l, d := Put(c, pad, false, Some(limit)).0, Put(c, pad, false, None).0;
      if l.truncated {
        DryNeverFlags(d, p.block, p.wordOnly);
        PutIsMonotone(l, p.block, p.wordOnly, Some(limit));
      } else {
        PutDry(l, p.block, p.wordOnly, limit);
      }
    } else {
      PutDry(c, p.block, p.wordOnly, limit);
    }
  }

  lemma {:induction false} DryAllNeverFlags(c: Ctx, pieces: seq<Piece>)
    requires !c.truncated
    ensures var (d, ok) := PutAll(c, pieces, None); ok && !d.truncated && d.offset >= c.offset
    decreases |pieces|
  {
    hide PutPiece;
    if pieces != [] {
      PutPieceDry(c, pieces[0], c.offset);
      PutPieceIsMonotone(c, pieces[0], None);
      DryAllNeverFlags(PutPiece(c, pieces[0], None).0, pieces[1..]);
    }
  }

  /** All that is to be written fits exactly when the computed size does, and then it is written as computed;
    * otherwise the coredump is flagged as truncated. */
  lemma {:induction false} PutAllDry(c: Ctx, pieces: seq<Piece>, limit: nat)
    requires !c.truncated && c.offset <= limit
    ensures SameOrFlagged(PutAll(c, pieces, Some(limit)), PutAll(c, pieces, None), limit)
    decreases |pieces|
  {
    hide PutPiece;
    if pieces != [] {
      var rest := pieces[1..];
      PutPieceDry(c, pieces[0], limit);
      var (l, ok) := PutPiece(c, pieces[0], Some(limit));
      var (d, dok) := PutPiece(c, pieces[0], None);
      if l.truncated {
        DryAllNeverFlags(d, rest);
        PutAllIsMonotone(l, rest, Some(limit));
      } else {
        PutAllDry(l, rest, limit);
      }
    }
  }

  // ---- What is kept ----

  /** The blocks without padding, which is of kind 6. */
  function Content(blocks: seq<Block>): seq<Block> {
    if blocks == [] then []
    else
      var last := blocks[|blocks| - 1];
      Content(blocks[..|blocks| - 1]) + if last.kind == 6 then [] else [last]
  }

  /** The blocks that are asked for. */
  function Requested(pieces: seq<Piece>): seq<Block> {
    if pieces == [] then []
    else (if pieces[0].block.payload == [] then [] else [pieces[0].block]) + Requested(pieces[1..])
  }

  /** `b` is `a`, cut to a whole number of words. */
  predicate Shortened(a: Block, b: Block) {
    && b.kind == a.kind && b.address == a.address && 0 < |b.payload| < |a.payload|
    && b.payload <= a.payload && |b.payload| % 4 == 0
  }

  /** `kept` is a prefix of `wanted`, of which the last block may be shortened. */
  predicate IsCut(kept: seq<Block>, wanted: seq<Block>) {
    && |kept| <= |wanted|
    && forall i :: 0 <= i < |kept| ==> kept[i] == wanted[i] || (i == |kept| - 1 && Shortened(wanted[i], kept[i]))
  }

  /** Hardly any room is left: nothing more is written. */
  predicate Stuck(c: Ctx, limit: nat) {
    FreeBytes(c.offset, limit) < 4
  }

  lemma ShortenedIsStuck(c: Ctx, b: Block, wordOnly: bool, limit: nat)
    requires b.payload != [] && !Fits(c, b, Some(limit)) && 0 < Room(c.offset, limit)
    ensures Stuck(Put(c, b, wordOnly, Some(limit)).0, limit) && Put(c, b, wordOnly, Some(limit)).0.truncated
  {
    var free := FreeBytes(c.offset, limit) - BLOCK_HEADER_SIZE;
    assert free - free / 4 * 4 < 4;
  }

  lemma PutWhenStuck(c: Ctx, b: Block, wordOnly: bool, limit: nat)
    requires Stuck(c, limit)
    ensures Put(c, b, wordOnly, Some(limit)) == if b.payload == [] then (c, true) else (c.(truncated := true), false)
  {
  }

  lemma {:induction false} PutAllWhenStuck(c: Ctx, pieces: seq<Piece>, limit: nat)
    requires Stuck(c, limit)
    ensures var (d, ok) := PutAll(c, pieces, Some(limit));
            && d.blocks == c.blocks && d.offset == c.offset && (c.truncated ==> d.truncated)
            && (Requested(pieces) != [] ==> !ok && d.truncated)
    decreases |pieces|
  {
    hide Put;
    if pieces != [] {
      var p := pieces[0];
      PutWhenStuck(c, PaddingBlock(4 - c.offset % 4), false, limit);
      var e := if p.padded then Pad(c, Some(limit)) else c;
      PutWhenStuck(e, p.block, p.wordOnly, limit);
      PutAllWhenStuck(PutPiece(c, p, Some(limit)).0, pieces[1..], limit);
    }
  }

  predicate NoPadding(pieces: seq<Piece>) {
    forall i :: 0 <= i < |pieces| ==> pieces[i].block.kind != PADDING
  }

  lemma ContentOfAdd(c: Ctx, b: Block)
    ensures Content(Add(c, b).blocks) == Content(c.blocks) + if b.kind == PADDING then [] else [b]
  {
    assert (c.blocks + [b])[..|c.blocks|] == c.blocks;
  }

  lemma PadContent(c: Ctx, limit: nat)
    ensures Content(Pad(c, Some(limit)).blocks) == Content(c.blocks)
    ensures !Pad(c, Some(limit)).truncated ==> Pad(c, Some(limit)).offset % 4 == 0
  {
    hide Content, Room;
    if c.offset % 4 != 0 {
      var b := PaddingBlock(4 - c.offset % 4);
      ContentOfAdd(c, b);
      var n := Room(c.offset, limit);
      if !Fits(c, b, Some(limit)) && 0 < n <= |b.payload| {
        RoomIsWords(c.offset, limit);
        assert false;
      }
    }
  }

  /** Padding is one block of kind 6, of one to three zeros, and only where it is needed. */
  lemma PadIsLeast(c: Ctx, limit: nat)
    ensures var d, n := Pad(c, Some(limit)), c.offset % 4;
            && (n == 0 ==> d == c)
            && (n != 0 && 16 - n <= limit - c.offset ==>
                  d.blocks == c.blocks + [Block(6, 0, Repeat(0, 4 - n))] && d.truncated == c.truncated)
  {
    hide Content, Room;
  }

  lemma RoomIsWords(offset: nat, limit: nat)
    ensures Room(offset, limit) % 4 == 0
  {
  }

  /** The coredump keeps a prefix of what was asked for, and only the last block it keeps may be shortened;
    * it keeps everything unless it is flagged as truncated. */
  lemma {:induction false} PutAllKeepsCut(c: Ctx, pieces: seq<Piece>, limit: nat) returns (kept: seq<Block>)
    requires NoPadding(pieces)
    ensures var (d, ok) := PutAll(c, pieces, Some(limit));
            && Content(d.blocks) == Content(c.blocks) + kept
            && IsCut(kept, Requested(pieces))
            && (!d.truncated ==> kept == Requested(pieces))
            && (c.truncated ==> d.truncated)
    decreases |pieces|
  {
    hide Content, Put, Shortened, Pad, Stuck, Fits, Room;
    if pieces == [] {
      kept := [];
      return;
    }
    var p, rest := pieces[0], pieces[1..];
    PadContent(c, limit);
    PadIsMonotone(c, limit);
    var e := if p.padded then Pad(c, Some(limit)) else c;
    var d := Put(e, p.block, p.wordOnly, Some(limit)).0;
    var first := PutKeepsCut(e, p, limit);
    if !PutPiece(c, p, Some(limit)).1 {
      kept := first;
    } else if d.truncated && p.block.payload != [] && first != [p.block] {
      kept := first;
      PutAllWhenStuck(d, rest, limit);
    } else {
      var more := PutAllKeepsCut(d, rest, limit);
      kept := first + more;
    }
  }

  lemma PadIsMonotone(c: Ctx, limit: nat)
    ensures c.truncated ==> Pad(c, Some(limit)).truncated
  {
  }

  /** One block is kept, or shortened, or not kept at all; in the latter cases nothing follows. */
  lemma PutKeepsCut(c: Ctx, p: Piece, limit: nat) returns (kept: seq<Block>)
    requires p.block.kind != PADDING
    ensures var (d, ok) := Put(c, p.block, p.wordOnly, Some(limit));
            && Content(d.blocks) == Content(c.blocks) + kept
            && (c.truncated || !ok ==> d.truncated)
            && (p.block.payload == [] ==> kept == [] && ok)
            && (p.block.payload != [] ==>
                  || kept == [p.block]
                  || (d.truncated && !ok && kept == [])
                  || (d.truncated && Stuck(d, limit) && |kept| == 1 && Shortened(p.block, kept[0])))
  {
    hide Content, Stuck, Room;
    kept := [];
    var b := p.block;
    if b.payload == [] {
    } else if Fits(c, b, Some(limit)) {
      ContentOfAdd(c, b);
      kept := [b];
    } else {
      var n := Room(c.offset, limit);
      RoomIsWords(c.offset, limit);
      if 0 < n <= |b.payload| {
        ShortenedIsStuck(c, b, p.wordOnly, limit);
        RoomIsShort(c, b, limit);
        ContentOfAdd(c.(truncated := true), b.(payload := b.payload[..n]));
        kept := [b.(payload := b.payload[..n])];
      }
    }
  }

  lemma RoomIsShort(c: Ctx, b: Block, limit: nat)
    requires !Fits(c, b, Some(limit))
    ensures Room(c.offset, limit) < |b.payload| || b.payload == []
  {
  }

  // ---- The pieces of a coredump ----

  datatype RegionKind = Memory | MemoryWordAccessOnly | ImageIdentifier | ArmMpuUnrolled | CachedMemory(valid: bool)

  /** A region to save; of a cached block, the address and the data that were cached. */
  datatype Region = Region(kind: RegionKind, address: nat, data: seq<byte>)

  datatype Device = Device(
    buildId: Option<seq<byte>>,
    serial: Option<seq<byte>>,
    softwareVersion: Option<seq<byte>>,
    softwareType: Option<seq<byte>>,
    hardwareVersion: Option<seq<byte>>,
    machineType: nat,
    archRegions: seq<Region>,
    sdkRegions: seq<Region>)

  datatype SaveInfo = SaveInfo(regs: Option<seq<byte>>, traceReason: nat, regions: seq<Region>)

  // ---- What a coredump has to contain ----

  /** The block for a piece of information; none if it is not known or empty. */
  function Known(kind: byte, data: Option<seq<byte>>): seq<Block> {
    if data == None || data.value == [] then [] else [Block(kind, 0, data.value)]
  }

  /** The blocks for these regions: of kind 9 for those of a memory protection unit, else of kind 1. Cached
    * blocks that are not valid have none, and neither have empty regions. */
  function Kept(regions: seq<Region>): seq<Block> {
    if regions == [] then []
    else
      var r := regions[0];
      (if r.kind == CachedMemory(false) || r.data == [] then []
       else [Block(if r.kind.ArmMpuUnrolled? then 9 else 1, r.address, r.data)]) + Kept(regions[1..])
  }

  /** The four bytes of a word, the least significant one first. */
  function LittleEndian(v: nat): (s: seq<byte>)
    requires v < UINT32_LIMIT
    ensures |s| == 4 && s[0] as nat + 0x100 * s[1] as nat + 0x1_0000 * s[2] as nat + 0x100_0000 * s[3] as nat == v
  {
    WordRoundTrip(v);
    Word(v)
  }

  /** What comes before the regions: the registers (kind 0), the build id (12), the serial number (2), the
    * software version (10), the software type (11), the hardware version (4), the type of the machine (7) and
    * the trace reason (5). */
  function ExpectedFront(info: SaveInfo, dev: Device): seq<Block>
    requires Possible(info, dev)
  {
    Known(0, info.regs) + Known(12, dev.buildId) + Known(2, dev.serial) + Known(10, dev.softwareVersion) +
    Known(11, dev.softwareType) + Known(4, dev.hardwareVersion) +
    [Block(7, 0, LittleEndian(dev.machineType))] + [Block(5, 0, LittleEndian(info.traceReason))]
  }

  /** What a coredump contains that is complete. */
  function Expected(info: SaveInfo, dev: Device): seq<Block>
    requires Possible(info, dev)
  {
    ExpectedFront(info, dev) + Kept(dev.archRegions) + Kept(dev.sdkRegions) + Kept(info.regions)
  }

  /** The space that blocks take: each has a header of 12 bytes. */
  function Space(blocks: seq<Block>): nat {
    if blocks == [] then 0 else 12 + |blocks[0].payload| + Space(blocks[1..])
  }

  /** There has to be room for a header of 12 bytes, a footer of 16, and all that comes before the regions. */
  function LeastStorage(info: SaveInfo, dev: Device): nat
    requires Possible(info, dev)
  {
    28 + Space(ExpectedFront(info, dev))
  }

  predicate RegionsStorable(regions: seq<Region>) {
    forall i :: 0 <= i < |regions| ==>
      Storable(Block(MEMORY, regions[i].address, regions[i].data))
  }

  predicate Short(data: Option<seq<byte>>) {
    data.Some? ==> |data.value| < UINT32_LIMIT
  }

  /** Addresses and lengths are 32-bit words. */
  predicate Possible(info: SaveInfo, dev: Device) {
    && Short(info.regs) && info.traceReason < UINT32_LIMIT && RegionsStorable(info.regions)
    && Short(dev.buildId) && Short(dev.serial) && Short(dev.softwareVersion) && Short(dev.softwareType)
    && Short(dev.hardwareVersion) && dev.machineType < UINT32_LIMIT
    && RegionsStorable(dev.archRegions) && RegionsStorable(dev.sdkRegions)
  }

  function PieceOf(r: Region): Piece {
    var data := if r.kind == CachedMemory(false) then [] else r.data;
    Piece(true, Block(if r.kind.ArmMpuUnrolled? then ARM_MPU else MEMORY, r.address, data), r.kind.MemoryWordAccessOnly?)
  }

  function PiecesOf(regions: seq<Region>): (pieces: seq<Piece>)
    requires RegionsStorable(regions)
    ensures AllPiecesStorable(pieces) && NoPadding(pieces)
  {
    if regions == [] then [] else [PieceOf(regions[0])] + PiecesOf(regions[1..])
  }

  /** No padding is needed and none of it has to be read by words. */
  predicate Plain(pieces: seq<Piece>) {
    forall i :: 0 <= i < |pieces| ==> !pieces[i].padded && !pieces[i].wordOnly
  }

  function Info(kind: byte, data: Option<seq<byte>>): (pieces: seq<Piece>)
    requires Short(data) && kind != PADDING
    ensures AllPiecesStorable(pieces) && NoPadding(pieces) && Plain(pieces)
  {
    if data == None then [] else [Piece(false, Block(kind, 0, data.value), false)]
  }

  lemma ConcatKeeps(a: seq<Piece>, b: seq<Piece>)
    ensures AllPiecesStorable(a) && AllPiecesStorable(b) ==> AllPiecesStorable(a + b)
    ensures NoPadding(a) && NoPadding(b) ==> NoPadding(a + b)
    ensures Plain(a) && Plain(b) ==> Plain(a + b)
  {
    hide Storable;
  }

  datatype Field = Field(kind: byte, data: Option<seq<byte>>)

  predicate Writable(fields: seq<Field>) {
    forall i :: 0 <= i < |fields| ==> Short(fields[i].data) && fields[i].kind != PADDING
  }

  function InfosOf(fields: seq<Field>): (pieces: seq<Piece>)
    requires Writable(fields)
    ensures AllPiecesStorable(pieces) && NoPadding(pieces) && Plain(pieces)
  {
    hide AllPiecesStorable, NoPadding, Plain, Info;
    if fields == [] then NothingIsPlain(); []
    else
      ConcatKeeps(Info(fields[0].kind, fields[0].data), InfosOf(fields[1..]));
      Info(fields[0].kind, fields[0].data) + InfosOf(fields[1..])
  }

  lemma NothingIsPlain()
    ensures AllPiecesStorable([]) && NoPadding([]) && Plain([])
  {
  }

  lemma {:induction false} InfosOfConcat(a: seq<Field>, b: seq<Field>)
    requires Writable(a) && Writable(b)
    ensures Writable(a + b) && InfosOf(a + b) == InfosOf(a) + InfosOf(b)
    decreases |a|
  {
    hide Info;
    if a == [] {
      assert a + b == b;
      assert [] + InfosOf(b) == InfosOf(b);
    } else {
      InfosOfConcat(a[1..], b);
      assert (a + b)[1..] == a[1..] + b && (a + b)[0] == a[0];
      Regroup(Info(a[0].kind, a[0].data), InfosOf(a[1..]), InfosOf(b));
    }
  }

  function DeviceFields(dev: Device): seq<Field>
    requires dev.machineType < UINT32_LIMIT
  {
    [Field(BUILD_ID, dev.buildId), Field(DEVICE_SERIAL, dev.serial), Field(SOFTWARE_VERSION, dev.softwareVersion),
     Field(SOFTWARE_TYPE, dev.softwareType), Field(HARDWARE_VERSION, dev.hardwareVersion),
     Field(MACHINE_TYPE, Some(Word(dev.machineType)))]
  }

  /** The registers and what is known about the device. */
  function FrontFields(info: SaveInfo, dev: Device): (fields: seq<Field>)
    requires Possible(info, dev)
    ensures Writable(fields)
  {
    [Field(REGISTERS, info.regs)] + DeviceFields(dev)
  }

  function TraceField(info: SaveInfo): Field
    requires info.traceReason < UINT32_LIMIT
  {
    Field(TRACE_REASON, Some(Word(info.traceReason)))
  }

  /** What comes before the regions; without it there is no coredump. */
  function Preamble(info: SaveInfo, dev: Device): (pieces: seq<Piece>)
    requires Possible(info, dev)
    ensures AllPiecesStorable(pieces) && NoPadding(pieces) && Plain(pieces)
  {
    InfosOf(FrontFields(info, dev) + [TraceField(info)])
  }

  function Regions(info: SaveInfo, dev: Device): (pieces: seq<Piece>)
    requires Possible(info, dev)
    ensures AllPiecesStorable(pieces) && NoPadding(pieces)
  {
    hide AllPiecesStorable, NoPadding, PiecesOf, RegionsStorable;
    var arch, sdk := PiecesOf(dev.archRegions), PiecesOf(dev.sdkRegions);
    ConcatKeeps(arch, sdk);
    ConcatKeeps(arch + sdk, PiecesOf(info.regions));
    arch + sdk + PiecesOf(info.regions)
  }

  /** The space for blocks: the footer must always fit behind them. */
  function BlockLimit(storageSize: nat): nat {
    if storageSize > FOOTER_SIZE then storageSize - FOOTER_SIZE else storageSize
  }

  /** The coredump that is saved to so much storage, or whose size is computed; None if there is none. */
  function Plan(info: SaveInfo, dev: Device, limit: Option<nat>): Option<Ctx>
    requires Possible(info, dev)
  {
    if info.regions == [] then None
    else
      var (c, ok) := PutAll(FIRST, Preamble(info, dev), limit);
      if ok then Some(PutAll(c, Regions(info, dev), limit).0) else None
  }

  function SaveSize(info: SaveInfo, dev: Device): nat
    requires Possible(info, dev)
  {
    match Plan(info, dev, None)
    case None => 0
    case Some(c) => c.offset + FOOTER_SIZE
  }

  lemma Rest(a: seq<Piece>, b: seq<Piece>)
    requires a != []
    ensures (a + b)[0] == a[0] && (a + b)[1..] == a[1..] + b
  {
  }

  lemma {:induction false} PutAllConcat(c: Ctx, a: seq<Piece>, b: seq<Piece>, limit: Option<nat>)
    ensures var (d, ok) := PutAll(c, a, limit);
            PutAll(c, a + b, limit) == if ok then PutAll(d, b, limit) else (d, false)
    decreases |a|
  {
    hide PutPiece;
    if a == [] {
      assert a + b == b;
    } else {
      PutAllConcat(PutPiece(c, a[0], limit).0, a[1..], b, limit);
      Rest(a, b);
    }
  }

  lemma {:induction false} RequestedConcat(a: seq<Piece>, b: seq<Piece>)
    ensures Requested(a + b) == Requested(a) + Requested(b)
    decreases |a|
  {
    if a == [] {
      assert a + b == b;
    } else {
      RequestedConcat(a[1..], b);
      Rest(a, b);
    }
  }

  /** The preamble ends with the trace reason. */
  lemma PreambleEnd(info: SaveInfo, dev: Device) returns (front: seq<Piece>, last: Piece)
    requires Possible(info, dev)
    ensures Preamble(info, dev) == front + [last] && NoPadding(front) && Plain(front)
    ensures last == Piece(false, Block(TRACE_REASON, 0, Word(info.traceReason)), false)
  {
    hide Word, Possible, AllPiecesStorable, NoPadding, Plain, FrontFields;
    assert info.traceReason < UINT32_LIMIT by { TraceFits(info, dev); }
    var trace := TraceField(info);
    InfosOfConcat(FrontFields(info, dev), [trace]);
    front, last := InfosOf(FrontFields(info, dev)), Piece(false, Block(TRACE_REASON, 0, trace.data.value), false);
    LoneField(trace);
  }

  lemma TraceFits(info: SaveInfo, dev: Device)
    requires Possible(info, dev)
    ensures info.traceReason < UINT32_LIMIT
  {
  }

  lemma LoneField(f: Field)
    requires Writable([f]) && f.data.Some?
    ensures InfosOf([f]) == [Piece(false, Block(f.kind, 0, f.data.value), false)]
  {
    assert [f][1..] == [];
  }

  lemma SinglePut(c: Ctx, p: Piece, limit: Option<nat>)
    ensures PutAll(c, [p], limit) == PutPiece(c, p, limit)
  {
    hide PutPiece;
    assert [p][1..] == [];
    assert PutAll(PutPiece(c, p, limit).0, [], limit) == (PutPiece(c, p, limit).0, true);
  }

  // ---- The main results ----

  /** Once anything did not fit, there is no room for another header and a word. */
  lemma {:induction false} FlaggedIsFull(c: Ctx, pieces: seq<Piece>, limit: nat)
    requires c.truncated ==> FreeBytes(c.offset, limit) < 16
    ensures var d := PutAll(c, pieces, Some(limit)).0; d.truncated ==> FreeBytes(d.offset, limit) < 16
    decreases |pieces|
  {
    hide Put, FreeBytes;
    if pieces != [] {
      var p := pieces[0];
      PutIsFull(c, PaddingBlock(4 - c.offset % 4), false, limit);
      PutIsFull(if p.padded then Pad(c, Some(limit)) else c, p.block, p.wordOnly, limit);
      FlaggedIsFull(PutPiece(c, p, Some(limit)).0, pieces[1..], limit);
    }
  }

  lemma PutIsFull(c: Ctx, b: Block, wordOnly: bool, limit: nat)
    requires c.truncated ==> FreeBytes(c.offset, limit) < 16
    ensures var d := Put(c, b, wordOnly, Some(limit)).0; d.truncated ==> FreeBytes(d.offset, limit) < 16
  {
    hide Stuck, Room;
    if b.payload != [] && !Fits(c, b, Some(limit)) {
      NoRoomIsFull(c.offset, limit);
      RoomIsShort(c, b, limit);
      if Room(c.offset, limit) > 0 {
        ShortenedIsStuck(c, b, wordOnly, limit);
        StuckIsFull(Put(c, b, wordOnly, Some(limit)).0, limit);
      }
    }
  }

  lemma NoRoomIsFull(offset: nat, limit: nat)
    ensures Room(offset, limit) == 0 ==> FreeBytes(offset, limit) < 16
  {
  }

  lemma StuckIsFull(c: Ctx, limit: nat)
    requires Stuck(c, limit)
    ensures FreeBytes(c.offset, limit) < 16
  {
  }

  /** Without padding, anything that does not fit leaves hardly any room. */
  lemma {:induction false} TruncatedIsStuck(c: Ctx, pieces: seq<Piece>, limit: nat)
    requires Plain(pieces) && (c.truncated ==> Stuck(c, limit))
    ensures var (d, ok) := PutAll(c, pieces, Some(limit)); ok && d.truncated ==> Stuck(d, limit)
    decreases |pieces|
  {
    hide Put, Stuck, Room, Fits;
    if pieces != [] {
      var p := pieces[0];
      var (d, ok) := Put(c, p.block, p.wordOnly, Some(limit));
      if c.truncated {
        PutAllWhenStuck(c, pieces, limit);
        SameRoom(c, PutAll(c, pieces, Some(limit)).0, limit);
      } else if ok {
        PutIsStuck(c, p, limit);
        TruncatedIsStuck(d, pieces[1..], limit);
      }
    }
  }

  lemma SameRoom(c: Ctx, d: Ctx, limit: nat)
    requires Stuck(c, limit) && d.offset == c.offset
    ensures Stuck(d, limit)
  {
  }

  lemma PutIsStuck(c: Ctx, p: Piece, limit: nat)
    requires !c.truncated
    ensures var (d, ok) := Put(c, p.block, p.wordOnly, Some(limit)); ok && d.truncated ==> Stuck(d, limit)
  {
    hide Stuck, Room;
    if p.block.payload != [] && !Fits(c, p.block, Some(limit)) && Room(c.offset, limit) > 0 {
      ShortenedIsStuck(c, p.block, p.wordOnly, limit);
    }
  }

  lemma LastFits(c: Ctx, p: Piece, limit: nat)
    requires |p.block.payload| == 4 && PutPiece(c, p, Some(limit)).1 && !p.padded && !p.wordOnly
    ensures c.offset + 16 <= limit && PutPiece(c, p, Some(limit)).0 == Add(c, p.block)
  {
  }

  /** The preamble is written as a whole or not at all. */
  lemma PreambleIsWhole(info: SaveInfo, dev: Device, limit: nat)
    requires Possible(info, dev) && PutAll(FIRST, Preamble(info, dev), Some(limit)).1
    ensures HEADER_SIZE + 16 <= limit
    ensures var c := PutAll(FIRST, Preamble(info, dev), Some(limit)).0; !c.truncated && c.offset <= limit
  {
    hide Put, PutPiece, Preamble, Possible, Stuck;
    var front, last := PreambleEnd(info, dev);
    PutAllConcat(FIRST, front, [last], Some(limit));
    var d := PutAll(FIRST, front, Some(limit)).0;
    SinglePut(d, last, Some(limit));
    LastFits(d, last, limit);
    TruncatedIsStuck(FIRST, front, limit);
    NotStuck(d, limit);
    PutAllIsMonotone(FIRST, front, Some(limit));
  }

  lemma NotStuck(c: Ctx, limit: nat)
    requires c.offset + 16 <= limit
    ensures !Stuck(c, limit)
  {
  }

  ghost function AllPieces(info: SaveInfo, dev: Device): (pieces: seq<Piece>)
    requires Possible(info, dev)
    ensures AllPiecesStorable(pieces) && NoPadding(pieces)
  {
    hide AllPiecesStorable, NoPadding, Plain, Preamble, Regions, Possible;
    ConcatKeeps(Preamble(info, dev), Regions(info, dev));
    Preamble(info, dev) + Regions(info, dev)
  }

  lemma {:induction false} RequestedRegions(regions: seq<Region>)
    requires RegionsStorable(regions)
    ensures Requested(PiecesOf(regions)) == Kept(regions)
    decreases |regions|
  {
    if regions != [] {
      RequestedRegions(regions[1..]);
    }
  }

  lemma RequestedInfo(f: Field, rest: seq<Field>)
    requires Writable([f] + rest) && Writable(rest)
    ensures Requested(InfosOf([f] + rest)) == Known(f.kind, f.data) + Requested(InfosOf(rest))
  {
    hide Requested;
    assert ([f] + rest)[0] == f && ([f] + rest)[1..] == rest;
    RequestedConcat(Info(f.kind, f.data), InfosOf(rest));
    LoneRequest(f.kind, f.data);
  }

  lemma LoneRequest(kind: byte, data: Option<seq<byte>>)
    requires Short(data) && kind != PADDING
    ensures Requested(Info(kind, data)) == Known(kind, data)
  {
    if data.Some? {
      assert Info(kind, data)[1..] == [];
    }
  }

  lemma PreambleIsExpected(info: SaveInfo, dev: Device)
    requires Possible(info, dev)
    ensures Requested(Preamble(info, dev)) == ExpectedFront(info, dev)
  {
    hide Requested, InfosOf, Known, Word, LittleEndian;
    var trace := [TraceField(info)];
    var machine := [Field(MACHINE_TYPE, Some(Word(dev.machineType)))] + trace;
    var hardware := [Field(HARDWARE_VERSION, dev.hardwareVersion)] + machine;
    var kind := [Field(SOFTWARE_TYPE, dev.softwareType)] + hardware;
    var version := [Field(SOFTWARE_VERSION, dev.softwareVersion)] + kind;
    var serial := [Field(DEVICE_SERIAL, dev.serial)] + version;
    var build := [Field(BUILD_ID, dev.buildId)] + serial;
    assert FrontFields(info, dev) + trace == [Field(REGISTERS, info.regs)] + build;
    assert trace == trace + [];
    RequestedInfo(Field(REGISTERS, info.regs), build);
    RequestedInfo(Field(BUILD_ID, dev.buildId), serial);
    RequestedInfo(Field(DEVICE_SERIAL, dev.serial), version);
    RequestedInfo(Field(SOFTWARE_VERSION, dev.softwareVersion), kind);
    RequestedInfo(Field(SOFTWARE_TYPE, dev.softwareType), hardware);
    RequestedInfo(Field(HARDWARE_VERSION, dev.hardwareVersion), machine);
    RequestedInfo(Field(MACHINE_TYPE, Some(Word(dev.machineType))), trace);
    RequestedInfo(TraceField(info), []);
    NothingRequested();
    KnownWord(7, dev.machineType);
    KnownWord(5, info.traceReason);
  }

  /** The pieces of a coredump are those that it has to contain. */
  lemma RequestedIsExpected(info: SaveInfo, dev: Device)
    requires Possible(info, dev)
    ensures Requested(AllPieces(info, dev)) == Expected(info, dev)
  {
    hide Requested, Preamble, ExpectedFront, Kept, PiecesOf;
    PreambleIsExpected(info, dev);
    RequestedConcat(Preamble(info, dev), Regions(info, dev));
    RequestedConcat(PiecesOf(dev.archRegions) + PiecesOf(dev.sdkRegions), PiecesOf(info.regions));
    RequestedConcat(PiecesOf(dev.archRegions), PiecesOf(dev.sdkRegions));
    RequestedRegions(dev.archRegions);
    RequestedRegions(dev.sdkRegions);
    RequestedRegions(info.regions);
  }

  /** Without a limit and without padding, every block takes its space. */
  lemma {:induction false} DrySpace(c: Ctx, pieces: seq<Piece>)
    requires Plain(pieces)
    ensures PutAll(c, pieces, None).0.offset == c.offset + Space(Requested(pieces)) || !PutAll(c, pieces, None).1
    decreases |pieces|
  {
    if pieces != [] {
      DrySpace(PutPiece(c, pieces[0], None).0, pieces[1..]);
      var first := if pieces[0].block.payload == [] then [] else [pieces[0].block];
      assert first == [] ==> Requested(pieces) == Requested(pieces[1..]);
      assert first != [] ==> Requested(pieces)[1..] == Requested(pieces[1..]);
    }
  }

  lemma NothingRequested()
    ensures Writable([]) && Requested(InfosOf([])) == []
  {
  }

  lemma KnownWord(kind: byte, v: nat)
    requires v < UINT32_LIMIT
    ensures Known(kind, Some(Word(v))) == [Block(kind, 0, LittleEndian(v))]
  {
    hide Word;
  }

  lemma PlanIsPutAll(info: SaveInfo, dev: Device, limit: Option<nat>)
    requires Possible(info, dev) && Plan(info, dev, limit).Some?
    ensures PutAll(FIRST, AllPieces(info, dev), limit).0 == Plan(info, dev, limit).value
  {
    hide Possible, Preamble, Regions, PutAll;
    PutAllConcat(FIRST, Preamble(info, dev), Regions(info, dev), limit);
  }

  /** A coredump that is saved stays inside the storage. Padding aside, its blocks are the first ones that
    * were asked for, and only the last of them may be shortened, to whole words; when it is not flagged as
    * truncated, it has all of them, and when it is, there is no room for another header and a word. */
  lemma SavedIsPrefix(info: SaveInfo, dev: Device, storageSize: nat)
    requires Possible(info, dev) && Plan(info, dev, Some(BlockLimit(storageSize))).Some?
    ensures var c := Plan(info, dev, Some(BlockLimit(storageSize))).value;
            && Consistent(c) && c.offset + FOOTER_SIZE <= storageSize
            && IsCut(Content(c.blocks), Expected(info, dev))
            && (!c.truncated ==> Content(c.blocks) == Expected(info, dev))
            && (c.truncated ==> storageSize < c.offset + FOOTER_SIZE + 16)
  {
    hide Possible, Preamble, Regions, PutAll, IsCut, AllPieces, Consistent, Expected;
    RequestedIsExpected(info, dev);
    FlaggedIsFull(FIRST, AllPieces(info, dev), BlockLimit(storageSize));
    var limit := BlockLimit(storageSize);
    var c := Plan(info, dev, Some(limit)).value;
    PreambleIsWhole(info, dev, limit);
    PlanIsPutAll(info, dev, Some(limit));
    var kept := PutAllKeepsCut(FIRST, AllPieces(info, dev), limit);
    assert Content(FIRST.blocks) == [];
    assert [] + kept == kept;
    FirstIsConsistent();
    PutAllIsConsistent(FIRST, AllPieces(info, dev), Some(limit));
    PutAllIsMonotone(FIRST, AllPieces(info, dev), Some(limit));
  }

  lemma FirstIsConsistent()
    ensures Consistent(FIRST)
  {
  }

  /** There is a coredump exactly when there is room for everything that comes before the regions. */
  lemma SavedWhenPreambleFits(info: SaveInfo, dev: Device, storageSize: nat)
    requires Possible(info, dev) && info.regions != []
    ensures Plan(info, dev, Some(BlockLimit(storageSize))).Some? <==> LeastStorage(info, dev) <= storageSize
  {
    hide Possible, Preamble, Regions, PutPiece, ExpectedFront;
    var limit := BlockLimit(storageSize);
    DryAllNeverFlags(FIRST, Preamble(info, dev));
    DrySpace(FIRST, Preamble(info, dev));
    PreambleIsExpected(info, dev);
    LeastIsMore(info, dev);
    if HEADER_SIZE <= limit {
      PutAllDry(FIRST, Preamble(info, dev), limit);
    }
    if PutAll(FIRST, Preamble(info, dev), Some(limit)).1 {
      PreambleIsWhole(info, dev, limit);
    }
  }

  lemma {:induction false} SpaceOfConcat(a: seq<Block>, b: seq<Block>)
    ensures Space(a + b) == Space(a) + Space(b)
    decreases |a|
  {
    if a == [] {
      assert a + b == b;
    } else {
      SpaceOfConcat(a[1..], b);
      assert (a + b)[1..] == a[1..] + b;
    }
  }

  lemma LeastIsMore(info: SaveInfo, dev: Device)
    requires Possible(info, dev)
    ensures LeastStorage(info, dev) >= 44
  {
    hide Known, LittleEndian;
    var e := ExpectedFront(info, dev);
    var n := |e| - 1;
    SpaceOfConcat(e[..n], e[n..]);
    assert e[..n] + e[n..] == e && e[n..] == [Block(5, 0, LittleEndian(info.traceReason))];
    assert Space(e[n..]) == 16 + Space(e[n..][1..]);
  }

  /** The computed size is exact: a coredump is saved in full exactly when the size is not above that of the
    * storage, and then it is just so long. */
  lemma DryRunIsExact(info: SaveInfo, dev: Device, storageSize: nat)
    requires Possible(info, dev) && info.regions != []
    ensures var plan := Plan(info, dev, Some(BlockLimit(storageSize)));
            && (SaveSize(info, dev) <= storageSize <==> plan.Some? && !plan.value.truncated)
            && (SaveSize(info, dev) <= storageSize ==> plan == Plan(info, dev, None))
  {
    hide Possible, Preamble, Regions, AllPieces, PutPiece;
    var limit := BlockLimit(storageSize);
    var pre, regions := Preamble(info, dev), Regions(info, dev);
    DryAllNeverFlags(FIRST, pre);
    var d := PutAll(FIRST, pre, None).0;
    DryAllNeverFlags(d, regions);
    if HEADER_SIZE <= limit {
      PutAllDry(FIRST, pre, limit);
      var (c, ok) := PutAll(FIRST, pre, Some(limit));
      if ok {
        PreambleIsWhole(info, dev, limit);
        PutAllDry(c, regions, limit);
      }
    } else if PutAll(FIRST, pre, Some(limit)).1 {
      PreambleIsWhole(info, dev, limit);
    }
  }

  // ---- When the flag is a false alarm ----

  /** The offset behind the first `k` pieces, if there is no limit. */
  function DryOffset(c: Ctx, pieces: seq<Piece>, k: nat): nat
    requires k <= |pieces|
  {
    PutAll(c, pieces[..k], None).0.offset
  }

  /** Piece `k` is the first one that does not fit. */
  predicate FirstUnfit(c: Ctx, pieces: seq<Piece>, k: nat, limit: nat) {
    k < |pieces| && DryOffset(c, pieces, k) <= limit < DryOffset(c, pieces, k + 1)
  }

  /** There is no room for the padding that is needed at this offset. */
  predicate PaddingMisses(offset: nat, limit: nat) {
    offset % 4 != 0 && FreeBytes(offset, limit) < BlockSize(PaddingBlock(4 - offset % 4))
  }

  /** There is nothing left to write, or one block that fits without padding. */
  predicate FitsUnpadded(wanted: seq<Block>, offset: nat, limit: nat) {
    wanted == [] || (|wanted| == 1 && BlockSize(wanted[0]) <= FreeBytes(offset, limit))
  }

  /** When the padding misses, what is written behind it. */
  lemma {:induction false} WithoutPadding(c: Ctx, pieces: seq<Piece>, limit: nat)
    requires c.truncated && PaddingMisses(c.offset, limit) && NoPadding(pieces)
    ensures var (d, ok) := PutAll(c, pieces, Some(limit));
            && d.truncated
            && (Content(d.blocks) == Content(c.blocks) + Requested(pieces) <==>
                FitsUnpadded(Requested(pieces), c.offset, limit))
    decreases |pieces|
  {
    hide Content, Put, Stuck, PaddingMisses;
    if pieces == [] {
      assert Content(c.blocks) + [] == Content(c.blocks);
      return;
    }
    var p, rest := pieces[0], pieces[1..];
    PadMisses(c, limit);
    assert (if p.padded then Pad(c, Some(limit)) else c) == c;
    CrampedPut(c, p, limit);
    if p.block.payload == [] {
      WithoutPadding(c, rest, limit);
    } else if BlockSize(p.block) <= FreeBytes(c.offset, limit) {
      PutAllWhenStuck(Add(c, p.block), rest, limit);
      ContentOfAdd(c, p.block);
      OnlyFirst(Content(c.blocks), p.block, Requested(rest));
    } else {
      NothingAdded(Content(c.blocks), [p.block] + Requested(rest));
    }
  }

  lemma PadMisses(c: Ctx, limit: nat)
    requires c.truncated && PaddingMisses(c.offset, limit)
    ensures Pad(c, Some(limit)) == c
  {
  }

  lemma CrampedPut(c: Ctx, p: Piece, limit: nat)
    requires c.truncated && PaddingMisses(c.offset, limit)
    ensures var (d, ok) := Put(c, p.block, p.wordOnly, Some(limit));
            if p.block.payload == [] then d == c && ok
            else if BlockSize(p.block) <= FreeBytes(c.offset, limit) then d == Add(c, p.block) && ok && Stuck(d, limit)
            else d == c && !ok
  {
  }

  lemma OnlyFirst(a: seq<Block>, b: Block, rest: seq<Block>)
    ensures a + [b] == a + ([b] + rest) <==> rest == []
  {
    if rest != [] {
      assert |a + [b]| != |a + ([b] + rest)|;
    }
  }

  lemma NothingAdded(a: seq<Block>, wanted: seq<Block>)
    requires wanted != []
    ensures a != a + wanted
  {
    assert |a| != |a + wanted|;
  }

  /** The first piece does not fit. */
  lemma AtUnfit(c: Ctx, pieces: seq<Piece>, limit: nat)
    requires !c.truncated && c.offset <= limit && NoPadding(pieces)
    requires pieces != [] && PutPiece(c, pieces[0], None).0.offset > limit
    ensures var (d, ok) := PutAll(c, pieces, Some(limit));
            && d.truncated
            && (Content(d.blocks) == Content(c.blocks) + Requested(pieces) <==>
                && pieces[0].padded && PaddingMisses(c.offset, limit)
                && FitsUnpadded(Requested(pieces), c.offset, limit))
  {
    hide Content, Put, Stuck, Fits, Room, PutAll, FitsUnpadded;
    var p, rest := pieces[0], pieces[1..];
    if p.padded && PaddingMisses(c.offset, limit) {
      var t := c.(truncated := true);
      FirstMiss(c, limit);
      PadMisses(t, limit);
      SameFromMiss(c, pieces, limit);
      WithoutPadding(t, pieces, limit);
    } else {
      BlockIsUnfit(c, p, limit);
      BlockMisses(c, pieces, limit);
    }
  }

  lemma FirstMiss(c: Ctx, limit: nat)
    requires PaddingMisses(c.offset, limit)
    ensures Pad(c, Some(limit)) == c.(truncated := true)
  {
  }

  lemma SameFromMiss(c: Ctx, pieces: seq<Piece>, limit: nat)
    requires pieces != [] && pieces[0].padded && PaddingMisses(c.offset, limit)
    ensures PutAll(c, pieces, Some(limit)) == PutAll(c.(truncated := true), pieces, Some(limit))
  {
    hide Put, PaddingMisses;
    FirstMiss(c, limit);
    FirstMiss(c.(truncated := true), limit);
  }

  /** The padding fits or is not needed, and the block behind it does not fit. */
  lemma BlockIsUnfit(c: Ctx, p: Piece, limit: nat)
    requires !c.truncated && c.offset <= limit && PutPiece(c, p, None).0.offset > limit
    requires !(p.padded && PaddingMisses(c.offset, limit))
    ensures var e := if p.padded then Pad(c, Some(limit)) else c;
            p.block.payload != [] && !Fits(e, p.block, Some(limit))
  {
  }

  lemma BlockMisses(c: Ctx, pieces: seq<Piece>, limit: nat)
    requires NoPadding(pieces) && pieces != []
    requires var p := pieces[0];
             var e := if p.padded then Pad(c, Some(limit)) else c;
             p.block.payload != [] && !Fits(e, p.block, Some(limit))
    ensures var (d, ok) := PutAll(c, pieces, Some(limit));
            d.truncated && Content(d.blocks) != Content(c.blocks) + Requested(pieces)
  {
    hide Content, Put, Stuck, Fits, Room, Pad, Shortened;
    var p, rest := pieces[0], pieces[1..];
    PadContent(c, limit);
    var e := if p.padded then Pad(c, Some(limit)) else c;
    var (d, ok) := Put(e, p.block, p.wordOnly, Some(limit));
    var kept := PutKeepsCut(e, p, limit);
    UnfitIsNotKept(e, p, limit);
    if ok {
      PutAllWhenStuck(d, rest, limit);
    }
    assert Content(d.blocks) == Content(c.blocks) + kept && kept != [p.block];
    DifferentFirst(Content(c.blocks), kept, p.block, Requested(rest));
  }

  lemma UnfitIsNotKept(c: Ctx, p: Piece, limit: nat)
    requires p.block.kind != PADDING && p.block.payload != [] && !Fits(c, p.block, Some(limit))
    ensures var (d, ok) := Put(c, p.block, p.wordOnly, Some(limit));
            && d.truncated && Content(d.blocks) != Content(c.blocks) + [p.block]
            && (ok ==> Stuck(d, limit))
  {
    hide Content, Room;
    var n := Room(c.offset, limit);
    RoomIsShort(c, p.block, limit);
    if n == 0 {
      NothingAdded(Content(c.blocks), [p.block]);
    } else {
      ShortenedIsStuck(c, p.block, p.wordOnly, limit);
      var s := p.block.(payload := p.block.payload[..n]);
      ContentOfAdd(c.(truncated := true), s);
      assert (Content(c.blocks) + [s])[|Content(c.blocks)|] == s != p.block;
    }
  }

  lemma DifferentFirst(a: seq<Block>, kept: seq<Block>, b: Block, rest: seq<Block>)
    requires |kept| <= 1 && kept != [b]
    ensures a + kept != a + ([b] + rest)
  {
    if kept == [] {
      assert |a + kept| != |a + ([b] + rest)|;
    } else {
      assert (a + kept)[|a|] == kept[0];
      assert (a + ([b] + rest))[|a|] == b;
    }
  }

  /** Nothing is missing although the coredump is flagged as truncated: the padding of the first piece that
    * does not fit misses, and what is left to write, if anything, is one block that fits without it. */
  ghost predicate FalseAlarm(c: Ctx, pieces: seq<Piece>, limit: nat) {
    exists k: nat :: FirstUnfit(c, pieces, k, limit) && HarmlessAt(c, pieces, k, limit)
  }

  ghost predicate HarmlessAt(c: Ctx, pieces: seq<Piece>, k: nat, limit: nat) {
    && k < |pieces| && pieces[k].padded && PaddingMisses(DryOffset(c, pieces, k), limit)
    && FitsUnpadded(Requested(pieces[k..]), DryOffset(c, pieces, k), limit)
  }

  lemma AlarmAt(c: Ctx, pieces: seq<Piece>, k: nat, limit: nat)
    requires !c.truncated && c.offset <= limit && NoPadding(pieces) && FirstUnfit(c, pieces, k, limit)
    ensures var (d, ok) := PutAll(c, pieces, Some(limit));
            && d.truncated
            && (Content(d.blocks) == Content(c.blocks) + Requested(pieces) <==> HarmlessAt(c, pieces, k, limit))
  {
    hide Content, PutPiece, PaddingMisses, FitsUnpadded, PutAll, Requested;
    var front, rest := pieces[..k], pieces[k..];
    assert front + rest == pieces;
    PutAllConcat(c, front, rest, Some(limit));
    PutAllDry(c, front, limit);
    RequestedConcat(front, rest);
    var d := PutAll(c, front, None).0;
    assert front + [pieces[k]] == pieces[..k + 1] && rest[0] == pieces[k];
    DryAllNeverFlags(c, front);
    PutAllConcat(c, front, [pieces[k]], None);
    SinglePut(d, pieces[k], None);
    AtUnfit(d, rest, limit);
    var kept := PutAllKeepsCut(c, front, limit);
    Regroup(Content(c.blocks), Requested(front), Requested(rest));
  }

  lemma NoPiecesYet(c: Ctx, pieces: seq<Piece>)
    ensures DryOffset(c, pieces, 0) == c.offset
  {
    assert pieces[..0] == [];
  }

  /** The first piece that does not fit, unless all do. */
  lemma {:induction false} FindUnfit(c: Ctx, pieces: seq<Piece>, n: nat, limit: nat) returns (k: nat)
    requires n <= |pieces| && c.offset <= limit < DryOffset(c, pieces, n)
    ensures k < n && FirstUnfit(c, pieces, k, limit)
    decreases n
  {
    hide PutPiece;
    NoPiecesYet(c, pieces);
    if DryOffset(c, pieces, n - 1) <= limit {
      k := n - 1;
    } else {
      k := FindUnfit(c, pieces, n - 1, limit);
    }
  }

  lemma DryOffsetGrows(c: Ctx, pieces: seq<Piece>, i: nat, j: nat)
    requires i <= j <= |pieces|
    requires !c.truncated
    ensures DryOffset(c, pieces, i) <= DryOffset(c, pieces, j)
  {
    hide PutPiece, PutAll;
    assert pieces[..i] + pieces[i..j] == pieces[..j];
    PutAllConcat(c, pieces[..i], pieces[i..j], None);
    DryAllNeverFlags(c, pieces[..i]);
    PutAllIsMonotone(PutAll(c, pieces[..i], None).0, pieces[i..j], None);
  }

  /** The flag is set although nothing is missing if and only if this is a false alarm. */
  lemma FlaggedThoughComplete(c: Ctx, pieces: seq<Piece>, limit: nat)
    requires !c.truncated && c.offset <= limit && NoPadding(pieces)
    ensures var (d, ok) := PutAll(c, pieces, Some(limit));
            d.truncated && Content(d.blocks) == Content(c.blocks) + Requested(pieces) <==> FalseAlarm(c, pieces, limit)
  {
    hide Content, PutPiece, PutAll, Requested, HarmlessAt;
    PutAllDry(c, pieces, limit);
    assert pieces[..|pieces|] == pieces;
    var d := PutAll(c, pieces, Some(limit)).0;
    if d.truncated {
      var k := FindUnfit(c, pieces, |pieces|, limit);
      AlarmAt(c, pieces, k, limit);
      if FalseAlarm(c, pieces, limit) {
        var j: nat :| FirstUnfit(c, pieces, j, limit) && HarmlessAt(c, pieces, j, limit);
        AlarmAt(c, pieces, j, limit);
      }
    } else if FalseAlarm(c, pieces, limit) {
      var j: nat :| FirstUnfit(c, pieces, j, limit) && HarmlessAt(c, pieces, j, limit);
      DryOffsetGrows(c, pieces, j + 1, |pieces|);
    }
  }

  /** So it is for a coredump that is saved. */
  lemma SavedFlaggedThoughComplete(info: SaveInfo, dev: Device, storageSize: nat)
    requires Possible(info, dev) && Plan(info, dev, Some(BlockLimit(storageSize))).Some?
    ensures var c := Plan(info, dev, Some(BlockLimit(storageSize))).value;
            c.truncated && Content(c.blocks) == Expected(info, dev) <==>
            FalseAlarm(FIRST, AllPieces(info, dev), BlockLimit(storageSize))
  {
    hide Possible, Preamble, Regions, PutAll, AllPieces, FalseAlarm, Requested, Expected;
    RequestedIsExpected(info, dev);
    var limit := BlockLimit(storageSize);
    PreambleIsWhole(info, dev, limit);
    PlanIsPutAll(info, dev, Some(limit));
    FlaggedThoughComplete(FIRST, AllPieces(info, dev), limit);
    assert Content(FIRST.blocks) == [];
    assert [] + Requested(AllPieces(info, dev)) == Requested(AllPieces(info, dev));
  }

  /** An example: the padding does not fit any more, but a region of one byte, which is then written without
    * it, does. */
  lemma UnpaddedRegionIsFlagged(c: Ctx, b: Block, limit: nat)
    requires c.offset % 4 == 1 && !c.truncated && limit == c.offset + 13 && |b.payload| == 1 && b.kind != PADDING
    ensures var (d, ok) := PutAll(c, [Piece(true, b, false)], Some(limit));
            ok && d.truncated && d.blocks == c.blocks + [b]
  {
    hide Put;
    var p := Piece(true, b, false);
    var t := c.(truncated := true);
    SinglePut(c, p, Some(limit));
    assert PaddingMisses(c.offset, limit);
    FirstMiss(c, limit);
    CrampedPut(t, p, limit);
  }

  /** Another one: there is no room for the padding in front of a cached block that is not even valid. */
  lemma SkippedRegionIsFlagged(c: Ctx, address: nat)
    requires c.offset % 4 == 1 && !c.truncated
    ensures var pieces := [PieceOf(Region(CachedMemory(false), address, []))];
            var (d, ok) := PutAll(c, pieces, Some(c.offset));
            ok && d.truncated && d.blocks == c.blocks && Requested(pieces) == []
  {
    hide Put;
    var p := PieceOf(Region(CachedMemory(false), address, []));
    SinglePut(c, p, Some(c.offset));
    assert PaddingMisses(c.offset, c.offset);
    FirstMiss(c, c.offset);
    CrampedPut(c.(truncated := true), p, c.offset);
    assert [p][1..] == [];
  }
}
