/** What is written of a coredump when writes may fail (components/panics/src/memfault_coredump.c). */
module CoredumpRun {
  import opened Bytes
  import opened CoredumpLayout
  import opened CoredumpPlan

  /** Which of the writes to the storage fail. */
  type Failures = nat -> bool

  const NEVER: Failures := (i: nat) => false

  /** Where the writing of a coredump stands. */
  datatype Run = Run(
    ctx: Ctx,
    /** All bytes behind the place of the header. */
    bytes: seq<byte>,
    /** How many writes there were. */
    writes: nat,
    /** A write has failed. */
    error: bool,
    /** The header of a block of padding was written and its payload was not. */
    torn: bool,
    /** The write of a block failed; after that there will be no coredump. */
    dead: bool)

  function Start(writes: nat): Run {
    Run(FIRST, [], writes, false, false, false)
  }

  ghost predicate AllWork(fails: Failures, from: nat, n: nat) {
    forall i: nat :: from <= i < from + n ==> !fails(i)
  }

  /** What is written of a block. */
  function PartOf(c: Ctx, b: Block, limit: Option<nat>): Option<Block> {
    if b.payload == [] then None
    else if Fits(c, b, limit) then Some(b)
    else
      var n := Room(c.offset, limit.value);
      if n == 0 || n > |b.payload| then None else Some(b.(payload := b.payload[..n]))
  }

  /** A payload that has to be read by words is written by words, if it consists of words. */
  predicate ByWord(b: Block, wordOnly: bool) {
    wordOnly && |b.payload| % 4 == 0
  }

  function WriteCount(b: Block, byWord: bool): nat {
    1 + if byWord then |b.payload| / 4 else 1
  }

  lemma PutIsPart(c: Ctx, b: Block, wordOnly: bool, limit: Option<nat>)
    ensures var part, d := PartOf(c, b, limit), Put(c, b, wordOnly, limit).0;
            match part
            case None => d == c.(truncated := d.truncated)
            case Some(p) => d == Add(c.(truncated := d.truncated), p)
  {
  }

  // ---- Steps ----

  ghost function RunPut(r: Run, b: Block, wordOnly: bool, limit: Option<nat>, fails: Failures): (Run, bool)
    requires Storable(b)
  {
    var (c, ok) := Put(r.ctx, b, wordOnly, limit);
    match PartOf(r.ctx, b, limit)
    case None => (r.(ctx := c), ok)
    case Some(p) =>
      var n := WriteCount(p, ByWord(p, wordOnly));
      if AllWork(fails, r.writes, n) then (r.(ctx := c, bytes := r.bytes + BlockBytes(p), writes := r.writes + n), ok)
      else (r.(error := true, dead := true), false)
  }

  /** What goes wrong with padding is ignored. */
  function RunPad(r: Run, limit: Option<nat>, fails: Failures): Run {
    var b := PaddingBlock(4 - r.ctx.offset % 4);
    if r.ctx.offset % 4 == 0 then r
    else if !Fits(r.ctx, b, limit) then r.(ctx := Pad(r.ctx, limit))
    else if fails(r.writes) then r.(writes := r.writes + 1, error := true)
    else if fails(r.writes + 1) then
      Run(r.ctx.(offset := r.ctx.offset + BLOCK_HEADER_SIZE), r.bytes + BlockHeader(b), r.writes + 2, true, true, r.dead)
    else r.(ctx := Add(r.ctx, b), bytes := r.bytes + BlockBytes(b), writes := r.writes + 2)
  }

  ghost function RunPiece(r: Run, p: Piece, limit: Option<nat>, fails: Failures): (Run, bool)
    requires Storable(p.block)
  {
    RunPut(if p.padded then RunPad(r, limit, fails) else r, p.block, p.wordOnly, limit, fails)
  }

  ghost function RunAll(r: Run, pieces: seq<Piece>, limit: Option<nat>, fails: Failures): (Run, bool)
    requires AllPiecesStorable(pieces)
    decreases |pieces|
  {
    if pieces == [] then (r, true)
    else
      var (d, ok) := RunPiece(r, pieces[0], limit, fails);
      if ok then RunAll(d, pieces[1..], limit, fails) else (d, false)
  }

  lemma {:induction false} RunAllConcat(r: Run, a: seq<Piece>, b: seq<Piece>, limit: Option<nat>, fails: Failures)
    requires AllPiecesStorable(a) && AllPiecesStorable(b)
    ensures AllPiecesStorable(a + b)
    ensures var (d, ok) := RunAll(r, a, limit, fails);
            RunAll(r, a + b, limit, fails) == if ok then RunAll(d, b, limit, fails) else (d, false)
    decreases |a|
  {
    hide RunPiece, Storable;
    if a == [] {
      assert a + b == b;
    } else {
      RunAllConcat(RunPiece(r, a[0], limit, fails).0, a[1..], b, limit, fails);
      Rest(a, b);
    }
  }

  lemma SingleRun(r: Run, p: Piece, limit: Option<nat>, fails: Failures)
    requires Storable(p.block)
    ensures AllPiecesStorable([p]) && RunAll(r, [p], limit, fails) == RunPiece(r, p, limit, fails)
  {
    hide RunPiece;
    assert [p][1..] == [];
  }

  /** What a save leads to: None if it fails, and else where it stood before the footer was written. */
  ghost function Outcome(info: SaveInfo, dev: Device, size: nat, fails: Failures, writes: nat): Option<Run>
    requires Possible(info, dev)
  {
    var limit := Some(BlockLimit(size));
    var (p, ready) := RunAll(Start(writes), Preamble(info, dev), limit, fails);
    if info.regions == [] || !ready then None
    else
      var (q, completed) := RunAll(p, Regions(info, dev), limit, fails);
      if (!completed && q.error) || !AllWork(fails, q.writes, 2) then None else Some(q)
  }

  // ---- If no write fails ----

  lemma PadNeverPartly(c: Ctx, limit: Option<nat>)
    requires c.offset % 4 != 0 && !Fits(c, PaddingBlock(4 - c.offset % 4), limit)
    ensures Pad(c, limit) == c.(truncated := true)
  {
  }

  lemma PieceWithoutFailure(r: Run, p: Piece, limit: Option<nat>, fails: Failures)
    requires Storable(p.block)
    ensures var (q, ok) := RunPiece(r, p, limit, fails);
            && (r.error || (q.dead && !r.dead) ==> q.error)
            && (!q.error ==> (q.ctx, ok) == PutPiece(r.ctx, p, limit) && q.torn == r.torn && q.dead == r.dead)
  {
    hide Put, AllWork, BlockBytes, BlockHeader, RunPad, Pad;
    PadCases(r, limit, fails);
  }

  /** What padding comes to. */
  lemma PadCases(r: Run, limit: Option<nat>, fails: Failures)
    ensures var d, b := RunPad(r, limit, fails), PaddingBlock(4 - r.ctx.offset % 4);
            && d.dead == r.dead && d.writes >= r.writes && (r.error ==> d.error) && (r.torn ==> d.torn)
            && (d.error && !r.error ==> exists i: nat :: i < d.writes && fails(i))
            && (|| (d.torn == r.torn && d.ctx == Pad(r.ctx, limit) && d.error == r.error &&
                    d.bytes == r.bytes + if |d.ctx.blocks| == |r.ctx.blocks| then [] else BlockBytes(b))
                || (d.torn == r.torn && d.error && d.ctx == r.ctx && d.bytes == r.bytes)
                || (d.torn && d.error && r.ctx.offset % 4 != 0 && d.ctx.blocks == r.ctx.blocks &&
                    d.bytes == r.bytes + BlockHeader(b)))
  {
    hide BlockBytes, BlockHeader, Put;
    assert r.bytes + [] == r.bytes;
    if r.ctx.offset % 4 != 0 {
      if Fits(r.ctx, PaddingBlock(4 - r.ctx.offset % 4), limit) {
        PadFits(r.ctx, limit);
      } else {
        PadNeverPartly(r.ctx, limit);
      }
    }
  }

  lemma PadFits(c: Ctx, limit: Option<nat>)
    requires c.offset % 4 != 0 && Fits(c, PaddingBlock(4 - c.offset % 4), limit)
    ensures Pad(c, limit) == Add(c, PaddingBlock(4 - c.offset % 4))
  {
  }

  lemma {:induction false} WithoutFailure(r: Run, pieces: seq<Piece>, limit: Option<nat>, fails: Failures)
    requires AllPiecesStorable(pieces)
    ensures var (q, ok) := RunAll(r, pieces, limit, fails);
            && (r.error || (q.dead && !r.dead) ==> q.error)
            && (!q.error ==> (q.ctx, ok) == PutAll(r.ctx, pieces, limit) && q.torn == r.torn && q.dead == r.dead)
    decreases |pieces|
  {
    hide RunPiece, PutPiece, Storable;
    if pieces != [] {
      PieceWithoutFailure(r, pieces[0], limit, fails);
      WithoutFailure(RunPiece(r, pieces[0], limit, fails).0, pieces[1..], limit, fails);
    }
  }

  /** Behind an error is a write that failed. */
  ghost predicate Blamed(r: Run, fails: Failures) {
    r.error && !r.dead ==> exists i: nat :: i < r.writes && fails(i)
  }

  lemma PieceIsBlamed(r: Run, p: Piece, limit: Option<nat>, fails: Failures)
    requires Storable(p.block) && Blamed(r, fails)
    ensures Blamed(RunPiece(r, p, limit, fails).0, fails)
    ensures RunPiece(r, p, limit, fails).0.writes >= r.writes
  {
    hide Put, AllWork, BlockBytes, BlockHeader, RunPad, Pad;
    PadCases(r, limit, fails);
  }

  lemma {:induction false} RunIsBlamed(r: Run, pieces: seq<Piece>, limit: Option<nat>, fails: Failures)
    requires AllPiecesStorable(pieces) && Blamed(r, fails)
    ensures Blamed(RunAll(r, pieces, limit, fails).0, fails)
    decreases |pieces|
  {
    hide RunPiece, Blamed, Storable;
    if pieces != [] {
      PieceIsBlamed(r, pieces[0], limit, fails);
      RunIsBlamed(RunPiece(r, pieces[0], limit, fails).0, pieces[1..], limit, fails);
    }
  }

  /** Once a write fails, all later ones do: what storage does from the moment the power goes. */
  ghost predicate ForGood(fails: Failures) {
    forall i: nat, j: nat :: i < j && fails(i) ==> fails(j)
  }

  // ---- If only padding is missing ----

  /** The bytes are those of the blocks. */
  ghost predicate Intact(r: Run) {
    !r.torn && !r.dead && Consistent(r.ctx) && r.bytes == Encode(r.ctx.blocks)
  }

  /** `q` is `p`, maybe without its padding. */
  predicate Unpadded(p: Piece, q: Piece) {
    q == p || q == p.(padded := false)
  }

  predicate Variant(ps: seq<Piece>, qs: seq<Piece>) {
    |ps| == |qs| && forall i :: 0 <= i < |ps| ==> Unpadded(ps[i], qs[i])
  }

  lemma {:induction false} VariantRequests(ps: seq<Piece>, qs: seq<Piece>)
    requires Variant(ps, qs)
    ensures Requested(qs) == Requested(ps)
    ensures NoPadding(ps) ==> NoPadding(qs)
    ensures AllPiecesStorable(ps) ==> AllPiecesStorable(qs)
    decreases |ps|
  {
    hide Storable;
    if ps != [] {
      VariantRequests(ps[1..], qs[1..]);
    }
  }

  lemma IntactAdd(r: Run, b: Block, c: Ctx)
    requires Intact(r) && Storable(b) && c.blocks == r.ctx.blocks && c.offset == r.ctx.offset
    ensures Consistent(Add(c, b)) && Encode(Add(c, b).blocks) == r.bytes + BlockBytes(b)
  {
    AddIsConsistent(c, b);
  }

  lemma PadIsIntact(r: Run, limit: Option<nat>, fails: Failures)
    requires Intact(r) && !RunPad(r, limit, fails).torn
    ensures var d := RunPad(r, limit, fails); Intact(d) && (d.ctx == Pad(r.ctx, limit) || d.ctx == r.ctx)
  {
    hide Encode, BlockBytes, BlockHeader, Storable;
    if r.ctx.offset % 4 != 0 {
      var b := PaddingBlock(4 - r.ctx.offset % 4);
      PaddingIsStorable(4 - r.ctx.offset % 4);
      IntactAdd(r, b, r.ctx);
      if Fits(r.ctx, b, limit) {
        PadFits(r.ctx, limit);
      } else {
        PadNeverPartly(r.ctx, limit);
      }
    }
  }

  lemma PaddingIsStorable(n: nat)
    requires n < UINT32_LIMIT
    ensures Storable(PaddingBlock(n))
  {
  }

  lemma PutIsIntact(r: Run, b: Block, wordOnly: bool, limit: Option<nat>, fails: Failures)
    requires Intact(r) && Storable(b)
    ensures var (d, ok) := RunPut(r, b, wordOnly, limit, fails);
            !d.torn && (!d.dead ==> Intact(d) && (d.ctx, ok) == Put(r.ctx, b, wordOnly, limit))
  {
    hide Encode, BlockBytes, Put, AllWork, Room;
    PutIsPart(r.ctx, b, wordOnly, limit);
    var c := r.ctx.(truncated := Put(r.ctx, b, wordOnly, limit).0.truncated);
    match PartOf(r.ctx, b, limit)
    case None =>
    case Some(p) => IntactAdd(r, p, c);
  }

  lemma PieceVariant(r: Run, p: Piece, limit: Option<nat>, fails: Failures) returns (q: Piece)
    requires Intact(r) && Storable(p.block)
    ensures Unpadded(p, q)
    ensures var (d, ok) := RunPiece(r, p, limit, fails);
            !d.torn && !d.dead ==> Intact(d) && (d.ctx, ok) == PutPiece(r.ctx, q, limit)
  {
    hide Put, RunPad, RunPut, Pad;
    q := p;
    var e := if p.padded then RunPad(r, limit, fails) else r;
    PutKeepsTear(e, p.block, p.wordOnly, limit, fails);
    if !e.torn {
      if p.padded {
        PadIsIntact(r, limit, fails);
        if e.ctx != Pad(r.ctx, limit) {
          q := p.(padded := false);
        }
      }
      PutIsIntact(e, p.block, p.wordOnly, limit, fails);
    }
  }

  lemma PutKeepsTear(r: Run, b: Block, wordOnly: bool, limit: Option<nat>, fails: Failures)
    requires Storable(b)
    ensures var d := RunPut(r, b, wordOnly, limit, fails).0; d.torn == r.torn && (r.dead ==> d.dead)
  {
    hide Put, AllWork, PartOf, BlockBytes;
  }

  lemma PieceKeepsTear(r: Run, p: Piece, limit: Option<nat>, fails: Failures)
    requires Storable(p.block)
    ensures var d := RunPiece(r, p, limit, fails).0; (r.torn ==> d.torn) && (r.dead ==> d.dead)
  {
    hide RunPut, RunPad;
    PadCases(r, limit, fails);
    PutKeepsTear(if p.padded then RunPad(r, limit, fails) else r, p.block, p.wordOnly, limit, fails);
  }

  lemma {:induction false} RunKeepsTear(r: Run, pieces: seq<Piece>, limit: Option<nat>, fails: Failures)
    requires AllPiecesStorable(pieces)
    ensures var d := RunAll(r, pieces, limit, fails).0; (r.torn ==> d.torn) && (r.dead ==> d.dead)
    decreases |pieces|
  {
    hide RunPiece, Storable;
    if pieces != [] {
      PieceKeepsTear(r, pieces[0], limit, fails);
      RunKeepsTear(RunPiece(r, pieces[0], limit, fails).0, pieces[1..], limit, fails);
    }
  }

  /** Unless something is torn, a run is one in which no write fails, of the same blocks with some of the
    * padding left out. */
  lemma {:induction false} RunVariant(r: Run, pieces: seq<Piece>, limit: Option<nat>, fails: Failures)
    returns (qs: seq<Piece>)
    requires Intact(r) && AllPiecesStorable(pieces)
    ensures Variant(pieces, qs)
    ensures var (d, ok) := RunAll(r, pieces, limit, fails);
            !d.torn && !d.dead ==> Intact(d) && (d.ctx, ok) == PutAll(r.ctx, qs, limit)
    decreases |pieces|
  {
    hide RunPiece, PutPiece, Storable, Intact, Unpadded;
    qs := pieces;
    SameVariant(pieces);
    if pieces != [] {
      var q := PieceVariant(r, pieces[0], limit, fails);
      var (d, ok) := RunPiece(r, pieces[0], limit, fails);
      PieceKeepsTear(r, pieces[0], limit, fails);
      RunKeepsTear(d, pieces[1..], limit, fails);
      if !d.torn && !d.dead {
        var more := RunVariant(d, pieces[1..], limit, fails);
        qs := [q] + more;
        assert qs[1..] == more;
      }
    }
  }

  lemma SameVariant(pieces: seq<Piece>)
    ensures Variant(pieces, pieces)
  {
  }

  // ---- If padding is torn ----

  /** What follows, if anything, begins with the header of a block. */
  predicate HeaderFirst(s: seq<byte>) {
    s == [] || (|s| >= BLOCK_HEADER_SIZE && s[1] == s[2] == s[3] == 0)
  }

  /** Behind some blocks comes the header of a block of padding, and then no padding. */
  ghost predicate TornBehind(bytes: seq<byte>, before: seq<Block>, n: nat, rest: seq<byte>) {
    && AllStorable(before) && 1 <= n <= 3 && HeaderFirst(rest)
    && bytes == Encode(before) + BlockHeader(PaddingBlock(n)) + rest
  }

  lemma BlockIsHeaderFirst(b: Block)
    requires Storable(b)
    ensures HeaderFirst(BlockHeader(b)) && HeaderFirst(BlockBytes(b))
  {
    hide Word;
  }

  lemma HeadersAppend(a: seq<byte>, b: seq<byte>)
    requires HeaderFirst(a) && HeaderFirst(b)
    ensures HeaderFirst(a + b)
  {
    if a == [] {
      assert a + b == b;
    }
  }

  lemma MoreBehind(bytes: seq<byte>, before: seq<Block>, n: nat, rest: seq<byte>, x: seq<byte>)
    requires TornBehind(bytes, before, n, rest) && HeaderFirst(x)
    ensures TornBehind(bytes + x, before, n, rest + x)
  {
    hide Encode, BlockHeader, AllStorable;
    HeadersAppend(rest, x);
    Regroup(Encode(before) + BlockHeader(PaddingBlock(n)), rest, x);
  }

  lemma PutAppends(r: Run, b: Block, wordOnly: bool, limit: Option<nat>, fails: Failures) returns (x: seq<byte>)
    requires Storable(b)
    ensures HeaderFirst(x) && RunPut(r, b, wordOnly, limit, fails).0.bytes == r.bytes + x
    ensures r.ctx.blocks <= RunPut(r, b, wordOnly, limit, fails).0.ctx.blocks
  {
    hide Put, AllWork, BlockBytes, HeaderFirst, Room;
    x := [];
    NothingIsHeaderFirst();
    assert r.bytes + [] == r.bytes;
    PutIsPart(r.ctx, b, wordOnly, limit);
    match PartOf(r.ctx, b, limit)
    case None =>
    case Some(p) =>
      if AllWork(fails, r.writes, WriteCount(p, ByWord(p, wordOnly))) {
        x := BlockBytes(p);
        BlockIsHeaderFirst(p);
      }
  }

  lemma NothingIsHeaderFirst()
    ensures HeaderFirst([])
  {
  }

  lemma PadAppends(r: Run, limit: Option<nat>, fails: Failures) returns (x: seq<byte>)
    ensures HeaderFirst(x) && RunPad(r, limit, fails).bytes == r.bytes + x
    ensures r.ctx.blocks <= RunPad(r, limit, fails).ctx.blocks
  {
    hide BlockBytes, BlockHeader, HeaderFirst, RunPad;
    x := [];
    NothingIsHeaderFirst();
    assert r.bytes + [] == r.bytes;
    PadCases(r, limit, fails);
    var d, b := RunPad(r, limit, fails), PaddingBlock(4 - r.ctx.offset % 4);
    PaddingIsStorable(4 - r.ctx.offset % 4);
    BlockIsHeaderFirst(b);
    PutKeepsBlocks(r.ctx, b, limit);
    if d.bytes == r.bytes + BlockBytes(b) {
      x := BlockBytes(b);
    } else if d.bytes == r.bytes + BlockHeader(b) {
      x := BlockHeader(b);
    }
  }

  lemma PutKeepsBlocks(c: Ctx, b: Block, limit: Option<nat>)
    ensures c.blocks <= Put(c, b, false, limit).0.blocks
  {
  }

  lemma PieceAppends(r: Run, p: Piece, limit: Option<nat>, fails: Failures) returns (x: seq<byte>)
    requires Storable(p.block)
    ensures HeaderFirst(x) && RunPiece(r, p, limit, fails).0.bytes == r.bytes + x
    ensures r.ctx.blocks <= RunPiece(r, p, limit, fails).0.ctx.blocks
  {
    hide HeaderFirst, RunPut, RunPad;
    x := [];
    NothingIsHeaderFirst();
    assert r.bytes + [] == r.bytes;
    var e := if p.padded then RunPad(r, limit, fails) else r;
    if p.padded {
      x := PadAppends(r, limit, fails);
    }
    var y := PutAppends(e, p.block, p.wordOnly, limit, fails);
    HeadersAppend(x, y);
    Regroup(r.bytes, x, y);
    x := x + y;
  }

  lemma {:induction false} RunAppends(r: Run, pieces: seq<Piece>, limit: Option<nat>, fails: Failures)
    returns (x: seq<byte>)
    requires AllPiecesStorable(pieces)
    ensures HeaderFirst(x) && RunAll(r, pieces, limit, fails).0.bytes == r.bytes + x
    decreases |pieces|
  {
    hide HeaderFirst, RunPiece, Storable;
    x := [];
    NothingIsHeaderFirst();
    assert r.bytes + [] == r.bytes;
    if pieces != [] {
      var (d, ok) := RunPiece(r, pieces[0], limit, fails);
      x := PieceAppends(r, pieces[0], limit, fails);
      if ok {
        var y := RunAppends(d, pieces[1..], limit, fails);
        HeadersAppend(x, y);
        Regroup(r.bytes, x, y);
        x := x + y;
      }
    }
  }

  /** A piece whose padding is torn. */
  lemma PieceTears(r: Run, p: Piece, limit: Option<nat>, fails: Failures) returns (n: nat, rest: seq<byte>)
    requires Intact(r) && Storable(p.block) && RunPiece(r, p, limit, fails).0.torn
    ensures TornBehind(RunPiece(r, p, limit, fails).0.bytes, r.ctx.blocks, n, rest)
  {
    hide RunPut, RunPad, BlockHeader, BlockBytes, Encode, HeaderFirst;
    PutKeepsTear(if p.padded then RunPad(r, limit, fails) else r, p.block, p.wordOnly, limit, fails);
    var e := RunPad(r, limit, fails);
    PadTears(r, limit, fails);
    n := 4 - r.ctx.offset % 4;
    rest := PutAppends(e, p.block, p.wordOnly, limit, fails);
  }

  lemma PadTears(r: Run, limit: Option<nat>, fails: Failures)
    requires !r.torn && RunPad(r, limit, fails).torn
    ensures r.ctx.offset % 4 != 0
    ensures RunPad(r, limit, fails).bytes == r.bytes + BlockHeader(PaddingBlock(4 - r.ctx.offset % 4))
  {
  }

  /** The first padding that is torn in a run. */
  lemma {:induction false} RunTears(r: Run, pieces: seq<Piece>, limit: Option<nat>, fails: Failures)
    returns (before: seq<Block>, n: nat, rest: seq<byte>)
    requires Intact(r) && AllPiecesStorable(pieces)
    requires var d := RunAll(r, pieces, limit, fails).0; d.torn && !d.dead
    ensures TornBehind(RunAll(r, pieces, limit, fails).0.bytes, before, n, rest) && r.ctx.blocks <= before
    decreases |pieces|
  {
    hide RunPiece, Storable, TornBehind, Intact;
    RunIsNotTorn(r);
    var (d, ok) := RunPiece(r, pieces[0], limit, fails);
    PieceKeepsTear(r, pieces[0], limit, fails);
    if ok {
      RunKeepsTear(d, pieces[1..], limit, fails);
    }
    var _ := PieceAppends(r, pieces[0], limit, fails);
    if d.torn {
      before := r.ctx.blocks;
      n, rest := PieceTears(r, pieces[0], limit, fails);
      if ok {
        var x := RunAppends(d, pieces[1..], limit, fails);
        MoreBehind(d.bytes, before, n, rest, x);
        rest := rest + x;
      }
    } else {
      var _ := PieceVariant(r, pieces[0], limit, fails);
      before, n, rest := RunTears(d, pieces[1..], limit, fails);
    }
  }

  lemma RunIsNotTorn(r: Run)
    requires Intact(r)
    ensures !r.torn && !r.dead
  {
  }

  // ---- What is read back ----

  /** A coredump with the first of these blocks, of which the last may be shortened; all of them unless it
    * is flagged as truncated. */
  ghost predicate IsDumpOf(dump: Coredump, wanted: seq<Block>) {
    && IsCut(Content(dump.blocks), wanted)
    && (!dump.truncated ==> Content(dump.blocks) == wanted)
  }

  ghost predicate ReadsBack(s: seq<byte>, wanted: seq<Block>) {
    Parse(s).Some? && IsDumpOf(Parse(s).value, wanted)
  }

  /** Torn padding swallows the beginning of the next header, and what is left of that reads as a block of
    * registers, if as anything. */
  lemma TornParses(n: nat, rest: seq<byte>) returns (more: seq<Block>)
    requires 1 <= n <= 3 && HeaderFirst(rest)
    ensures Storable(PaddingBlock(n))
    ensures match ParseBlocks(BlockHeader(PaddingBlock(n)) + rest)
            case None => true
            case Some(blocks) =>
              n <= |rest| && blocks == [Block(PADDING, 0, rest[..n])] + more && more != [] && more[0].kind == REGISTERS
  {
    hide Word, FromWord, Encode, BlockHeader;
    more := [];
    var h := BlockHeader(PaddingBlock(n));
    HeaderReads(PaddingBlock(n), rest);
    if rest != [] {
      var tail := rest[n..];
      assert (h + rest)[BLOCK_HEADER_SIZE..BLOCK_HEADER_SIZE + n] == rest[..n];
      assert (h + rest)[BLOCK_HEADER_SIZE + n..] == tail;
      assert tail[0] == 0;
      match ParseBlocks(tail)
      case None =>
      case Some(blocks) =>
        more := blocks;
        FirstKind(tail, blocks);
    }
  }

  lemma FirstKind(s: seq<byte>, blocks: seq<Block>)
    requires s != [] && ParseBlocks(s) == Some(blocks)
    ensures blocks != [] && blocks[0].kind == s[0]
  {
  }

  lemma HeaderReads(b: Block, rest: seq<byte>)
    requires Storable(b)
    ensures var s := BlockHeader(b) + rest;
            s[0] == b.kind && FromWord(s[4..8]) == b.address && FromWord(s[8..12]) == |b.payload|
  {
    hide Word, FromWord;
    WordRoundTrip(b.address);
    WordRoundTrip(|b.payload|);
    HeaderParts([b.kind, 0, 0, 0], Word(b.address), Word(|b.payload|), rest);
  }

  /** Whatever can be read behind some blocks is read behind them. */
  lemma {:induction false} ParseSplits(blocks: seq<Block>, rest: seq<byte>)
    requires AllStorable(blocks)
    ensures match ParseBlocks(rest)
            case None => ParseBlocks(Encode(blocks) + rest) == None
            case Some(more) => ParseBlocks(Encode(blocks) + rest) == Some(blocks + more)
    decreases |blocks|
  {
    hide BlockBytes, Storable;
    if blocks == [] {
      assert [] + rest == rest;
      if ParseBlocks(rest).Some? {
        assert [] + ParseBlocks(rest).value == ParseBlocks(rest).value;
      }
    } else {
      var b, front := blocks[|blocks| - 1], blocks[..|blocks| - 1];
      OneMoreParses(b, rest);
      ParseSplits(front, BlockBytes(b) + rest);
      Regroup(Encode(front), BlockBytes(b), rest);
      if ParseBlocks(rest).Some? {
        Regroup(front, [b], ParseBlocks(rest).value);
        assert front + [b] == blocks;
      }
    }
  }

  lemma OneMoreParses(b: Block, rest: seq<byte>)
    requires Storable(b)
    ensures match ParseBlocks(rest)
            case None => ParseBlocks(BlockBytes(b) + rest) == None
            case Some(more) => ParseBlocks(BlockBytes(b) + rest) == Some([b] + more)
  {
    hide BlockBytes, FromWord;
    ParseFirst(b, rest);
  }

  lemma {:induction false} ContentConcat(a: seq<Block>, b: seq<Block>)
    ensures Content(a + b) == Content(a) + Content(b)
    decreases |b|
  {
    if b == [] {
      assert a + b == a && Content(a) + [] == Content(a);
    } else {
      var front, last := b[..|b| - 1], b[|b| - 1];
      ContentConcat(a, front);
      assert (a + b)[..|a + b| - 1] == a + front;
      Regroup(Content(a), Content(front), if last.kind == PADDING then [] else [last]);
    }
  }

  lemma ContentOfOne(b: Block)
    ensures Content([b]) == if b.kind == PADDING then [] else [b]
  {
    assert [b][..0] == [];
  }

  /** Registers where a region is wanted cannot be right. */
  lemma TornIsNotCut(before: seq<Block>, padding: Block, more: seq<Block>, wanted: seq<Block>)
    requires padding.kind == PADDING && more != [] && more[0].kind == REGISTERS
    requires var m := |Content(before)|; m < |wanted| ==> wanted[m].kind != REGISTERS
    ensures !IsCut(Content(before + ([padding] + more)), wanted)
  {
    hide Content;
    assert more == [more[0]] + more[1..];
    ContentConcat(before, [padding] + more);
    ContentConcat([padding], more);
    ContentConcat([more[0]], more[1..]);
    ContentOfOne(padding);
    ContentOfOne(more[0]);
    var kept, m := Content(before + ([padding] + more)), |Content(before)|;
    assert kept == Content(before) + ([] + ([more[0]] + Content(more[1..])));
    assert kept[m] == more[0];
  }

  // ---- What a save leads to ----

  /** As long as it is not lost, a run has as many bytes as its offset says. */
  ghost predicate Measured(r: Run) {
    !r.dead ==> |r.bytes| + HEADER_SIZE == r.ctx.offset
  }

  lemma PutIsMeasured(r: Run, b: Block, wordOnly: bool, limit: Option<nat>, fails: Failures)
    requires Storable(b) && Measured(r)
    ensures var (d, ok) := RunPut(r, b, wordOnly, limit, fails); Measured(d) && (ok && !r.dead ==> !d.dead)
  {
    hide Put, AllWork, Room;
    PutIsPart(r.ctx, b, wordOnly, limit);
  }

  lemma PieceIsMeasured(r: Run, p: Piece, limit: Option<nat>, fails: Failures)
    requires Storable(p.block) && Measured(r)
    ensures var (d, ok) := RunPiece(r, p, limit, fails); Measured(d) && (ok && !r.dead ==> !d.dead)
  {
    hide RunPut, BlockHeader, Put;
    if p.padded && r.ctx.offset % 4 != 0 && !Fits(r.ctx, PaddingBlock(4 - r.ctx.offset % 4), limit) {
      PadNeverPartly(r.ctx, limit);
    }
    PutIsMeasured(if p.padded then RunPad(r, limit, fails) else r, p.block, p.wordOnly, limit, fails);
  }

  lemma {:induction false} RunIsMeasured(r: Run, pieces: seq<Piece>, limit: Option<nat>, fails: Failures)
    requires AllPiecesStorable(pieces) && Measured(r)
    ensures var (d, ok) := RunAll(r, pieces, limit, fails); Measured(d) && (ok && !r.dead ==> !d.dead)
    decreases |pieces|
  {
    hide RunPiece, Measured, Storable;
    if pieces != [] {
      PieceIsMeasured(r, pieces[0], limit, fails);
      RunIsMeasured(RunPiece(r, pieces[0], limit, fails).0, pieces[1..], limit, fails);
    }
  }

  /** Without padding, every failure is fatal. */
  lemma {:induction false} PlainRun(r: Run, pieces: seq<Piece>, limit: Option<nat>, fails: Failures)
    requires AllPiecesStorable(pieces) && Plain(pieces)
    ensures var (d, ok) := RunAll(r, pieces, limit, fails);
            && d.torn == r.torn && (d.error ==> r.error || d.dead) && (ok && !r.dead ==> !d.dead)
            && (r.dead ==> d.dead)
    decreases |pieces|
  {
    hide RunPut, Storable;
    if pieces != [] {
      PlainPut(r, pieces[0].block, pieces[0].wordOnly, limit, fails);
      PlainRun(RunPiece(r, pieces[0], limit, fails).0, pieces[1..], limit, fails);
    }
  }

  lemma PlainPut(r: Run, b: Block, wordOnly: bool, limit: Option<nat>, fails: Failures)
    requires Storable(b)
    ensures var (d, ok) := RunPut(r, b, wordOnly, limit, fails);
            && d.torn == r.torn && (d.error ==> r.error || d.dead) && (ok && !r.dead ==> !d.dead)
            && (r.dead ==> d.dead)
  {
    hide Put, AllWork, PartOf, BlockBytes;
  }

  /** The preamble, when it is written, is whole. */
  lemma PreambleRun(info: SaveInfo, dev: Device, limit: nat, fails: Failures, writes: nat)
    requires Possible(info, dev)
    ensures var (p, ready) := RunAll(Start(writes), Preamble(info, dev), Some(limit), fails);
            ready ==>
              && Intact(p) && !p.error && (p.ctx, true) == PutAll(FIRST, Preamble(info, dev), Some(limit))
              && HEADER_SIZE + 16 <= limit && !p.ctx.truncated && p.ctx.offset <= limit
              && Content(p.ctx.blocks) == Requested(Preamble(info, dev))
  {
    hide RunAll, PutAll, Preamble, Possible, Content, Encode;
    var pre := Preamble(info, dev);
    var (p, ready) := RunAll(Start(writes), pre, Some(limit), fails);
    StartIsIntact(writes);
    if ready {
      PlainRun(Start(writes), pre, Some(limit), fails);
      WithoutFailure(Start(writes), pre, Some(limit), fails);
      PreambleIsWhole(info, dev, limit);
      var _ := RunVariant(Start(writes), pre, Some(limit), fails);
      var kept := PutAllKeepsCut(FIRST, pre, limit);
      NoContent(kept);
    }
  }

  lemma StartIsIntact(writes: nat)
    ensures Intact(Start(writes)) && Measured(Start(writes))
  {
  }

  lemma NoContent(kept: seq<Block>)
    ensures Content(FIRST.blocks) + kept == kept
  {
  }

  lemma {:induction false} RegionKinds(regions: seq<Region>, i: nat)
    requires RegionsStorable(regions) && i < |Requested(PiecesOf(regions))|
    ensures Requested(PiecesOf(regions))[i].kind != REGISTERS
    decreases |regions|
  {
    hide Storable;
    var rest := Requested(PiecesOf(regions[1..]));
    assert PiecesOf(regions)[1..] == PiecesOf(regions[1..]);
    var n := |Requested(PiecesOf(regions))| - |rest|;
    if i >= n {
      RegionKinds(regions[1..], i - n);
    }
  }

  lemma AllRegionKinds(info: SaveInfo, dev: Device, i: nat)
    requires Possible(info, dev) && i < |Requested(Regions(info, dev))|
    ensures Requested(Regions(info, dev))[i].kind != REGISTERS
  {
    hide Requested, PiecesOf, RegionsStorable;
    var a, b, c := PiecesOf(dev.archRegions), PiecesOf(dev.sdkRegions), PiecesOf(info.regions);
    RequestedConcat(a, b);
    RequestedConcat(a + b, c);
    var na, nb := |Requested(a)|, |Requested(b)|;
    if i < na {
      RegionKinds(dev.archRegions, i);
    } else if i < na + nb {
      RegionKinds(dev.sdkRegions, i - na);
    } else {
      RegionKinds(info.regions, i - na - nb);
    }
  }

  /** Only regions are wanted behind the preamble. */
  lemma WantedBehindPreamble(info: SaveInfo, dev: Device, m: nat)
    requires Possible(info, dev) && |Requested(Preamble(info, dev))| <= m < |Requested(AllPieces(info, dev))|
    ensures Requested(AllPieces(info, dev))[m].kind != REGISTERS
  {
    hide Requested, Preamble, Regions, Possible;
    RequestedConcat(Preamble(info, dev), Regions(info, dev));
    AllRegionKinds(info, dev, m - |Requested(Preamble(info, dev))|);
  }

  lemma OutcomeParts(info: SaveInfo, dev: Device, size: nat, fails: Failures, writes: nat)
    requires Possible(info, dev) && Outcome(info, dev, size, fails, writes).Some?
    ensures var limit := Some(BlockLimit(size));
            var (p, ready) := RunAll(Start(writes), Preamble(info, dev), limit, fails);
            var q := Outcome(info, dev, size, fails, writes).value;
            && ready && q == RunAll(p, Regions(info, dev), limit, fails).0
            && !q.dead && |q.bytes| + HEADER_SIZE == q.ctx.offset
  {
    hide RunAll, Preamble, Regions, Possible;
    var limit := Some(BlockLimit(size));
    StartIsIntact(writes);
    RunIsMeasured(Start(writes), Preamble(info, dev), limit, fails);
    var p := RunAll(Start(writes), Preamble(info, dev), limit, fails).0;
    RunIsMeasured(p, Regions(info, dev), limit, fails);
    WithoutFailure(p, Regions(info, dev), limit, fails);
  }

  /** A save that succeeds leaves what was asked for if and only if no padding is torn. */
  lemma ReadsBackUnlessTorn(info: SaveInfo, dev: Device, size: nat, fails: Failures, writes: nat, behind: seq<byte>)
    requires Possible(info, dev) && Outcome(info, dev, size, fails, writes).Some?
    requires Outcome(info, dev, size, fails, writes).value.ctx.offset + FOOTER_SIZE < UINT32_LIMIT
    ensures var q := Outcome(info, dev, size, fails, writes).value;
            var s := Header(q.ctx.offset + FOOTER_SIZE) + q.bytes + Footer(q.ctx.truncated) + behind;
            && (ReadsBack(s, Expected(info, dev)) <==> !q.torn)
            && (!q.torn && q.ctx.truncated ==> size < q.ctx.offset + FOOTER_SIZE + 16)
  {
    hide RunAll, Preamble, Regions, Possible, Parse, ParseBlocks, Header, Footer, Outcome, Requested, IsCut, Content,
         AllPieces, TornBehind, Intact, PutAll, Expected;
    RequestedIsExpected(info, dev);
    OutcomeParts(info, dev, size, fails, writes);
    var limit, q := BlockLimit(size), Outcome(info, dev, size, fails, writes).value;
    PreambleRun(info, dev, limit, fails, writes);
    SectionsParse(q.bytes, q.ctx.truncated, q.ctx.offset + FOOTER_SIZE, behind);
    if q.torn {
      TornOutcome(info, dev, limit, fails, writes);
    } else {
      IntactOutcome(info, dev, limit, fails, writes);
    }
  }

  lemma IntactOutcome(info: SaveInfo, dev: Device, limit: nat, fails: Failures, writes: nat)
    requires Possible(info, dev)
    requires RunAll(Start(writes), Preamble(info, dev), Some(limit), fails).1
    requires var q := RunAll(RunAll(Start(writes), Preamble(info, dev), Some(limit), fails).0,
                             Regions(info, dev), Some(limit), fails).0;
             !q.torn && !q.dead
    ensures var q := RunAll(RunAll(Start(writes), Preamble(info, dev), Some(limit), fails).0,
                            Regions(info, dev), Some(limit), fails).0;
            && ParseBlocks(q.bytes) == Some(q.ctx.blocks)
            && IsDumpOf(CoredumpLayout.Coredump(q.ctx.blocks, q.ctx.truncated), Requested(AllPieces(info, dev)))
            && (q.ctx.truncated ==> FreeBytes(q.ctx.offset, limit) < 16)
  {
    hide RunAll, Preamble, Regions, Possible, ParseBlocks, Requested, PutAll, Content, IsCut, Variant;
    PreambleRun(info, dev, limit, fails, writes);
    var pre, regions := Preamble(info, dev), Regions(info, dev);
    var p := RunAll(Start(writes), pre, Some(limit), fails).0;
    var qs := RunVariant(p, regions, Some(limit), fails);
    var q := RunAll(p, regions, Some(limit), fails).0;
    VariantRequests(regions, qs);
    PutAllConcat(FIRST, pre, qs, Some(limit));
    ConcatKeeps(pre, qs);
    RequestedConcat(pre, qs);
    RequestedConcat(pre, regions);
    var kept := PutAllKeepsCut(FIRST, pre + qs, limit);
    FlaggedIsFull(FIRST, pre + qs, limit);
    NoContent(kept);
    EncodeRoundTrip(q.ctx.blocks);
  }

  lemma TornOutcome(info: SaveInfo, dev: Device, limit: nat, fails: Failures, writes: nat)
    requires Possible(info, dev)
    requires RunAll(Start(writes), Preamble(info, dev), Some(limit), fails).1
    requires var q := RunAll(RunAll(Start(writes), Preamble(info, dev), Some(limit), fails).0,
                             Regions(info, dev), Some(limit), fails).0;
             q.torn && !q.dead
    ensures var q := RunAll(RunAll(Start(writes), Preamble(info, dev), Some(limit), fails).0,
                            Regions(info, dev), Some(limit), fails).0;
            match ParseBlocks(q.bytes)
            case None => true
            case Some(blocks) => !IsCut(Content(blocks), Requested(AllPieces(info, dev)))
  {
    hide RunAll, Preamble, Regions, Possible, ParseBlocks, Requested, PutAll, Content, IsCut, Encode, BlockHeader;
    PreambleRun(info, dev, limit, fails, writes);
    var p := RunAll(Start(writes), Preamble(info, dev), Some(limit), fails).0;
    var q := RunAll(p, Regions(info, dev), Some(limit), fails).0;
    var before, n, rest := RunTears(p, Regions(info, dev), Some(limit), fails);
    var h := BlockHeader(PaddingBlock(n));
    Regroup(Encode(before), h, rest);
    ParseSplits(before, h + rest);
    var more := TornParses(n, rest);
    ContentGrows(p.ctx.blocks, before);
    var m := |Content(before)|;
    var wanted := Requested(AllPieces(info, dev));
    if m < |wanted| {
      WantedBehindPreamble(info, dev, m);
    }
    if more != [] && more[0].kind == REGISTERS && n <= |rest| {
      TornIsNotCut(before, Block(PADDING, 0, rest[..n]), more, wanted);
    }
  }

  lemma ContentGrows(a: seq<Block>, b: seq<Block>)
    requires a <= b
    ensures |Content(a)| <= |Content(b)|
  {
    hide Content;
    ContentConcat(a, b[|a|..]);
    assert a + b[|a|..] == b;
  }

  /** If writes fail for good, no save succeeds after one failed. */
  lemma NoErrorForGood(info: SaveInfo, dev: Device, size: nat, fails: Failures, writes: nat)
    requires Possible(info, dev) && Outcome(info, dev, size, fails, writes).Some? && ForGood(fails)
    ensures var q := Outcome(info, dev, size, fails, writes).value; !q.error && !q.torn
  {
    hide RunAll, Preamble, Regions, Possible;
    OutcomeParts(info, dev, size, fails, writes);
    var limit, q := Some(BlockLimit(size)), Outcome(info, dev, size, fails, writes).value;
    var p := RunAll(Start(writes), Preamble(info, dev), limit, fails).0;
    PreambleRun(info, dev, BlockLimit(size), fails, writes);
    RunIsBlamed(p, Regions(info, dev), limit, fails);
    WithoutFailure(p, Regions(info, dev), limit, fails);
    assert !fails(q.writes);
  }

  /** Without an error, the blocks are those of the plan. */
  lemma OutcomeIsPlan(info: SaveInfo, dev: Device, size: nat, fails: Failures, writes: nat)
    requires Possible(info, dev)
    requires var o := Outcome(info, dev, size, fails, writes); o.Some? && !o.value.error
    ensures Plan(info, dev, Some(BlockLimit(size))) == Some(Outcome(info, dev, size, fails, writes).value.ctx)
  {
    hide RunAll, Preamble, Regions, Possible, PutAll;
    OutcomeParts(info, dev, size, fails, writes);
    var limit := Some(BlockLimit(size));
    PreambleRun(info, dev, BlockLimit(size), fails, writes);
    WithoutFailure(RunAll(Start(writes), Preamble(info, dev), limit, fails).0, Regions(info, dev), limit, fails);
  }

  // ---- If none fails ----

  lemma PieceSucceeds(r: Run, p: Piece, limit: Option<nat>, fails: Failures)
    requires Storable(p.block) && forall i: nat :: i >= r.writes ==> !fails(i)
    ensures var d := RunPiece(r, p, limit, fails).0; d.error == r.error && d.writes >= r.writes
  {
    hide Put, BlockBytes, BlockHeader;
  }

  lemma {:induction false} RunSucceeds(r: Run, pieces: seq<Piece>, limit: Option<nat>, fails: Failures)
    requires AllPiecesStorable(pieces) && forall i: nat :: i >= r.writes ==> !fails(i)
    ensures var d := RunAll(r, pieces, limit, fails).0; d.error == r.error && d.writes >= r.writes
    decreases |pieces|
  {
    hide RunPiece, Storable;
    if pieces != [] {
      PieceSucceeds(r, pieces[0], limit, fails);
      RunSucceeds(RunPiece(r, pieces[0], limit, fails).0, pieces[1..], limit, fails);
    }
  }

  /** If no write fails, there is a coredump exactly when there are regions to save, and room for all that
    * comes before them. */
  lemma SucceedsWithoutFailure(info: SaveInfo, dev: Device, size: nat, fails: Failures, writes: nat)
    requires Possible(info, dev) && forall i: nat :: i >= writes ==> !fails(i)
    ensures var o := Outcome(info, dev, size, fails, writes);
            && (o.Some? <==> info.regions != [] && LeastStorage(info, dev) <= size)
            && (o.Some? ==> !o.value.error && Plan(info, dev, Some(BlockLimit(size))) == Some(o.value.ctx))
  {
    hide RunAll, Preamble, Regions, Possible, PutAll, LeastStorage;
    if info.regions != [] {
      SavedWhenPreambleFits(info, dev, size);
    }
    var limit := Some(BlockLimit(size));
    RunSucceeds(Start(writes), Preamble(info, dev), limit, fails);
    WithoutFailure(Start(writes), Preamble(info, dev), limit, fails);
    var p := RunAll(Start(writes), Preamble(info, dev), limit, fails).0;
    RunSucceeds(p, Regions(info, dev), limit, fails);
    if Outcome(info, dev, size, fails, writes).Some? {
      WithoutFailure(p, Regions(info, dev), limit, fails);
      OutcomeIsPlan(info, dev, size, fails, writes);
    }
  }

  // ---- A save that does not read back ----

  /** One region of two bytes, and a device with a version of one character, which leaves the offset of the
    * region unaligned. */
  const EXAMPLE_INFO := SaveInfo(None, 0, [Region(Memory, 0x2000_0000, [1, 2])])
  const EXAMPLE_DEVICE := Device(None, None, Some([0x31]), None, None, 40, [], [])
  const EXAMPLE_SIZE := 128
  /** The only write that fails is that of the payload of the padding. */
  const EXAMPLE_FAILURES: Failures := (i: nat) => i == 7

  /** Where a run stands, but for what it wrote. */
  predicate At(r: Run, offset: nat, writes: nat, torn: bool) {
    && r.ctx.offset == offset && !r.ctx.truncated && r.writes == writes
    && r.error == r.torn == torn && !r.dead
  }

  lemma RunPutFits(r: Run, b: Block, offset: nat, writes: nat, torn: bool)
    requires Storable(b) && b.payload != [] && At(r, offset, writes, torn)
    requires offset + BlockSize(b) <= 112 && (writes + 2 <= 7 || writes > 7)
    ensures var (d, ok) := RunPut(r, b, false, Some(112), EXAMPLE_FAILURES);
            ok && At(d, offset + BlockSize(b), writes + 2, torn)
  {
    hide BlockBytes;
  }

  lemma ExamplePreamble()
    ensures Possible(EXAMPLE_INFO, EXAMPLE_DEVICE)
    ensures Preamble(EXAMPLE_INFO, EXAMPLE_DEVICE) ==
            [Piece(false, Block(SOFTWARE_VERSION, 0, [0x31]), false),
             Piece(false, Block(MACHINE_TYPE, 0, Word(40)), false),
             Piece(false, Block(TRACE_REASON, 0, Word(0)), false)]
    ensures Regions(EXAMPLE_INFO, EXAMPLE_DEVICE) ==
            [Piece(true, Block(MEMORY, 0x2000_0000, [1, 2]), false)]
  {
    hide Word, InfosOf;
    var trace, machine := Field(TRACE_REASON, Some(Word(0))), Field(MACHINE_TYPE, Some(Word(40)));
    var version := Field(SOFTWARE_VERSION, Some([0x31]));
    var f7 := [trace];
    var f6 := [machine] + f7;
    var f3 := [version] + ([Field(SOFTWARE_TYPE, None)] + ([Field(HARDWARE_VERSION, None)] + f6));
    assert FrontFields(EXAMPLE_INFO, EXAMPLE_DEVICE) + [TraceField(EXAMPLE_INFO)] ==
           [Field(REGISTERS, None)] + ([Field(BUILD_ID, None)] + ([Field(DEVICE_SERIAL, None)] + f3));
    LoneField(trace);
    InfosOfFirst(machine, f7);
    InfosOfFirst(Field(HARDWARE_VERSION, None), f6);
    InfosOfFirst(Field(SOFTWARE_TYPE, None), [Field(HARDWARE_VERSION, None)] + f6);
    InfosOfFirst(version, [Field(SOFTWARE_TYPE, None)] + ([Field(HARDWARE_VERSION, None)] + f6));
    InfosOfFirst(Field(DEVICE_SERIAL, None), f3);
    InfosOfFirst(Field(BUILD_ID, None), [Field(DEVICE_SERIAL, None)] + f3);
    InfosOfFirst(Field(REGISTERS, None), [Field(BUILD_ID, None)] + ([Field(DEVICE_SERIAL, None)] + f3));
    assert EXAMPLE_INFO.regions[1..] == [];
  }

  lemma InfosOfFirst(f: Field, rest: seq<Field>)
    requires Short(f.data) && f.kind != PADDING && Writable(rest)
    ensures Writable([f] + rest)
    ensures InfosOf([f] + rest) ==
            (if f.data == None then [] else [Piece(false, Block(f.kind, 0, f.data.value), false)]) + InfosOf(rest)
  {
    assert ([f] + rest)[1..] == rest;
  }

  /** The save succeeds, with torn padding. */
  lemma ExampleIsTorn()
    ensures Possible(EXAMPLE_INFO, EXAMPLE_DEVICE)
    ensures var o := Outcome(EXAMPLE_INFO, EXAMPLE_DEVICE, EXAMPLE_SIZE, EXAMPLE_FAILURES, 0);
            o.Some? && o.value.torn
  {
    hide RunPut, Preamble, Regions, Possible, Word;
    ExamplePreamble();
    var limit := Some(112);
    var version, machine := Block(SOFTWARE_VERSION, 0, [0x31]), Block(MACHINE_TYPE, 0, Word(40));
    var trace, region := Block(TRACE_REASON, 0, Word(0)), Block(MEMORY, 0x2000_0000, [1, 2]);
    RunPutFits(Start(0), version, 12, 0, false);
    var r1 := RunPut(Start(0), version, false, limit, EXAMPLE_FAILURES).0;
    RunPutFits(r1, machine, 25, 2, false);
    var r2 := RunPut(r1, machine, false, limit, EXAMPLE_FAILURES).0;
    RunPutFits(r2, trace, 41, 4, false);
    var r3 := RunPut(r2, trace, false, limit, EXAMPLE_FAILURES).0;
    var p := [Piece(false, version, false), Piece(false, machine, false), Piece(false, trace, false)];
    assert p[1..] == [p[1], p[2]] && p[1..][1..] == [p[2]];
    SingleRun(r2, p[2], limit, EXAMPLE_FAILURES);
    assert RunAll(r1, p[1..], limit, EXAMPLE_FAILURES) == RunAll(r2, p[1..][1..], limit, EXAMPLE_FAILURES);
    assert RunAll(Start(0), p, limit, EXAMPLE_FAILURES) == (r3, true);
    ExamplePadding(r3);
    var r4 := RunPad(r3, limit, EXAMPLE_FAILURES);
    RunPutFits(r4, region, 69, 8, true);
    SingleRun(r3, Piece(true, region, false), limit, EXAMPLE_FAILURES);
  }

  lemma ExamplePadding(r: Run)
    requires At(r, 57, 6, false)
    ensures At(RunPad(r, Some(112), EXAMPLE_FAILURES), 69, 8, true)
  {
    hide BlockHeader, BlockBytes;
  }
}
