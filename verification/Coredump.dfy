/** Saving a coredump to storage (components/panics/src/memfault_coredump.c). */
module Coredump {
  import opened Bytes
  import opened CoredumpLayout
  import opened CoredumpPlan
  import opened CoredumpRun

  const ERASED: byte := 0xff

  /** The platform's storage. Reading, erasing and each write may fail; what fails changes nothing. */
  class Storage {
    const data: array<byte>
    const readable: bool
    const erasable: bool
    const fails: Failures
    var writes: nat

    constructor (size: nat, readable: bool, erasable: bool, fails: Failures)
      ensures data.Length == size && fresh(data) && writes == 0
      ensures forall i :: 0 <= i < size ==> data[i] == ERASED
      ensures this.readable == readable && this.erasable == erasable && this.fails == fails
    {
      data := new byte[size](_ => ERASED);
      this.readable, this.erasable, this.fails, writes := readable, erasable, fails, 0;
    }

    method Read(offset: nat, len: nat) returns (ok: bool, bytes: seq<byte>)
      ensures ok == (readable && offset + len <= data.Length)
      ensures ok ==> bytes == data[offset..offset + len]
    {
      if !readable || offset + len > data.Length {
        return false, [];
      }
      return true, data[offset..offset + len];
    }

    method Erase(offset: nat, size: nat) returns (ok: bool)
      requires offset + size <= data.Length
      modifies data
      ensures ok == erasable
      ensures if ok then forall i :: offset <= i < offset + size ==> data[i] == ERASED else data[..] == old(data[..])
    {
      if !erasable {
        return false;
      }
      for i := offset to offset + size
        invariant forall j :: offset <= j < i ==> data[j] == ERASED
      {
        data[i] := ERASED;
      }
      return true;
    }

    method Write(offset: nat, bytes: seq<byte>) returns (ok: bool)
      requires offset + |bytes| <= data.Length
      modifies this`writes, data
      ensures ok == !fails(old(writes)) && writes == old(writes) + 1
      ensures data[..] == if ok then Splice(old(data[..]), offset, bytes) else old(data[..])
    {
      ok := !fails(writes);
      writes := writes + 1;
      if ok {
        CopyInto(data, offset, bytes);
      }
    }
  }

  // ---- Storage as sequences ----

  function Front(s: seq<byte>): seq<byte> {
    if |s| < HEADER_SIZE then s else s[..HEADER_SIZE]
  }

  /** Behind the place of the header come these bytes. */
  predicate Holds(s: seq<byte>, bytes: seq<byte>) {
    HEADER_SIZE + |bytes| <= |s| && s[HEADER_SIZE..HEADER_SIZE + |bytes|] == bytes
  }

  lemma HoldsMore(s: seq<byte>, bytes: seq<byte>, more: seq<byte>)
    requires Holds(s, bytes) && HEADER_SIZE + |bytes| + |more| <= |s|
    ensures Holds(Splice(s, HEADER_SIZE + |bytes|, more), bytes + more)
  {
    var at := HEADER_SIZE + |bytes|;
    assert Splice(s, at, more)[HEADER_SIZE..at + |more|] == s[HEADER_SIZE..at] + more;
  }

  lemma BytesOfBlock(b: Block)
    requires Storable(b)
    ensures BlockBytes(b) == BlockHeader(b) + b.payload && |BlockBytes(b)| == BlockSize(b)
  {
  }

  lemma FrontIsKept(s: seq<byte>, at: nat, bytes: seq<byte>)
    requires HEADER_SIZE <= at && at + |bytes| <= |s|
    ensures Front(Splice(s, at, bytes)) == Front(s)
  {
  }

  class Writer {
    const storage: Storage
    const computeSizeOnly: bool
    const limit: nat
    var offset: nat
    var truncated: bool
    var writeError: bool
    ghost var run: Run

    constructor (storage: Storage, computeSizeOnly: bool, storageSize: nat)
      requires !computeSizeOnly ==> storageSize == storage.data.Length >= HEADER_SIZE
      ensures Valid() && run == Start(storage.writes)
      ensures this.storage == storage && this.computeSizeOnly == computeSizeOnly && limit == BlockLimit(storageSize)
    {
      this.storage, this.computeSizeOnly := storage, computeSizeOnly;
      limit := if storageSize > FOOTER_SIZE then storageSize - FOOTER_SIZE else storageSize;
      offset, truncated, writeError, run := HEADER_SIZE, false, false, Start(storage.writes);
    }

    function Limit(): Option<nat> {
      if computeSizeOnly then None else Some(limit)
    }

    function Fails(): Failures {
      if computeSizeOnly then NEVER else storage.fails
    }

    /** Blocks stay behind the place of the header and inside the limit. */
    ghost predicate InBlocks()
      reads `offset
    {
      && HEADER_SIZE <= offset
      && (!computeSizeOnly ==>
            limit <= storage.data.Length && (offset <= limit || offset == HEADER_SIZE <= storage.data.Length))
    }

    /** The writer stands where the run stands, and the storage holds its bytes, until the run is lost. */
    ghost predicate Valid()
      reads this, storage`writes, storage.data
    {
      && InBlocks() && writeError == run.error
      && (!run.dead ==>
            && offset == run.ctx.offset == HEADER_SIZE + |run.bytes| && truncated == run.ctx.truncated
            && (!computeSizeOnly ==> storage.writes == run.writes && Holds(storage.data[..], run.bytes)))
    }

    /** Writes at the offset and moves it. */
    method PlatformWrite(bytes: seq<byte>) returns (ok: bool)
      requires !computeSizeOnly ==> offset + |bytes| <= storage.data.Length
      modifies `offset, `writeError, storage`writes, storage.data
      ensures ok == !Fails()(old(storage.writes))
      ensures writeError == (old(writeError) || !ok)
      ensures offset == old(offset) + if ok then |bytes| else 0
      ensures storage.data[..] == if ok && !computeSizeOnly then Splice(old(storage.data[..]), old(offset), bytes)
                                  else old(storage.data[..])
      ensures storage.writes == old(storage.writes) + if computeSizeOnly then 0 else 1
    {
      if !computeSizeOnly {
        var written := storage.Write(offset, bytes);
        if !written {
          writeError := true;
          return false;
        }
      }
      offset := offset + |bytes|;
      return true;
    }

    /** Writes a payload, word by word if that is how it has to be read. */
    method WritePayload(payload: seq<byte>, byWord: bool) returns (ok: bool)
      requires InBlocks() && (!computeSizeOnly ==> offset + |payload| <= limit)
      requires byWord ==> |payload| % 4 == 0
      modifies `offset, `writeError, storage`writes, storage.data
      ensures InBlocks() && Front(storage.data[..]) == Front(old(storage.data[..]))
      ensures ok == AllWork(Fails(), old(storage.writes), if byWord then |payload| / 4 else 1)
      ensures writeError == (old(writeError) || !ok)
      ensures ok ==> offset == old(offset) + |payload|
      ensures ok && !computeSizeOnly ==>
                && storage.writes == old(storage.writes) + (if byWord then |payload| / 4 else 1)
                && storage.data[..] == Splice(old(storage.data[..]), old(offset), payload)
      ensures !byWord && !ok ==>
                offset == old(offset) && storage.data[..] == old(storage.data[..]) &&
                storage.writes == old(storage.writes) + 1
      ensures computeSizeOnly ==> storage.data[..] == old(storage.data[..]) && storage.writes == old(storage.writes)
    {
      hide Splice, Front;
      ghost var was, start, first := storage.data[..], offset, storage.writes;
      if !computeSizeOnly {
        FrontIsKept(was, start, payload);
      }
      if !byWord {
        ok := PlatformWrite(payload);
        return;
      }
      var i := 0;
      if !computeSizeOnly {
        SpliceNothing(was, start);
      }
      assert payload[..0] == [];
      while i < |payload| / 4
        invariant i <= |payload| / 4 && offset == start + 4 * i && writeError == old(writeError)
        invariant AllWork(Fails(), first, i)
        invariant !computeSizeOnly ==>
                    storage.writes == first + i && storage.data[..] == Splice(was, start, payload[..4 * i])
        invariant computeSizeOnly ==> storage.data[..] == was && storage.writes == first
      {
        var word := payload[4 * i..4 * i + 4];
        assert payload[..4 * i] + word == payload[..4 * (i + 1)];
        if !computeSizeOnly {
          SpliceTwice(was, start, payload[..4 * i], word);
          FrontIsKept(was, start, payload[..4 * i]);
        }
        ok := PlatformWrite(word);
        if !ok {
          return;
        }
        i := i + 1;
      }
      assert payload[..4 * i] == payload;
      return true;
    }

    /** What writing a block leaves in the storage. */
    twostate predicate Wrote(b: Block, byWord: bool)
      requires Storable(b) && (!computeSizeOnly ==> old(offset) + BlockSize(b) <= storage.data.Length)
      reads `offset, `writeError, storage`writes, storage.data
    {
      var n := old(storage.writes);
      if AllWork(Fails(), n, WriteCount(b, byWord)) then
        && offset == old(offset) + BlockSize(b) && writeError == old(writeError)
        && storage.writes == (if computeSizeOnly then n else n + WriteCount(b, byWord))
        && storage.data[..] == (if computeSizeOnly then old(storage.data[..])
                                else Splice(old(storage.data[..]), old(offset), BlockHeader(b) + b.payload))
      else
        && writeError && !computeSizeOnly
        && (!byWord ==>
              if Fails()(n) then
                offset == old(offset) && storage.data[..] == old(storage.data[..]) && storage.writes == n + 1
              else
                && offset == old(offset) + BLOCK_HEADER_SIZE && storage.writes == n + 2
                && storage.data[..] == Splice(old(storage.data[..]), old(offset), BlockHeader(b)))
    }

    /** Writes the header and the payload of a block. */
    method WriteWhole(b: Block, byWord: bool) returns (ok: bool)
      requires InBlocks() && Storable(b) && (!computeSizeOnly ==> offset + BlockSize(b) <= limit)
      requires byWord ==> |b.payload| % 4 == 0
      modifies `offset, `writeError, storage`writes, storage.data
      ensures InBlocks() && Front(storage.data[..]) == Front(old(storage.data[..]))
      ensures Wrote(b, byWord) && ok == AllWork(Fails(), old(storage.writes), WriteCount(b, byWord))
    {
      hide Front, Splice, BlockHeader, Storable;
      ghost var was := storage.data[..];
      if !computeSizeOnly {
        FrontIsKept(was, offset, BlockHeader(b));
        SpliceTwice(was, offset, BlockHeader(b), b.payload);
      } else {
        NeverFails();
      }
      ok := PlatformWrite(BlockHeader(b));
      if !ok {
        return;
      }
      ok := WritePayload(b.payload, byWord);
    }

    /** Writes a block: all of it, or as many words of it as there is room for. `c` is where the plan stands. */
    method WriteBlock(kind: byte, payload: seq<byte>, address: nat, wordOnly: bool, ghost c: Ctx) returns (ok: bool)
      requires InBlocks() && Storable(Block(kind, address, payload))
      requires c.offset == offset && c.truncated == truncated
      modifies `offset, `truncated, `writeError, storage`writes, storage.data
      ensures InBlocks() && Front(storage.data[..]) == Front(old(storage.data[..]))
      ensures var b := Block(kind, address, payload);
              var (d, goOn) := Put(c, b, wordOnly, Limit());
              && truncated == d.truncated
              && match PartOf(c, b, Limit())
                 case None =>
                   && offset == old(offset) && writeError == old(writeError) && storage.writes == old(storage.writes)
                   && storage.data[..] == old(storage.data[..]) && ok == goOn
                 case Some(p) =>
                   && Storable(p) && (!computeSizeOnly ==> old(offset) + BlockSize(p) <= storage.data.Length)
                   && Wrote(p, ByWord(p, wordOnly))
                   && ok == (AllWork(Fails(), old(storage.writes), WriteCount(p, ByWord(p, wordOnly))) && goOn)
    {
      hide Front, AllWork, Splice, BlockHeader;
      if |payload| == 0 {
        return true;
      }
      ghost var wanted := Block(kind, address, payload);
      var totalLength := BLOCK_HEADER_SIZE + |payload|;
      var bytesFree := if limit > offset then limit - offset else 0;
      var size := |payload|;
      if !computeSizeOnly && bytesFree < totalLength {
        RoomIsShort(c, wanted, limit);
        truncated := true;
        if bytesFree < BLOCK_HEADER_SIZE {
          return false;
        }
        size := (bytesFree - BLOCK_HEADER_SIZE) / 4 * 4;
        if size == 0 {
          return false;
        }
      }
      assert payload[..|payload|] == payload;
      ok := WriteWhole(Block(kind, address, payload[..size]), wordOnly && size % 4 == 0);
      if !ok {
        return false;
      }
      return if wordOnly && size % 4 == 0 then !truncated else true;
    }

    /** The next block of the run. */
    method WriteNext(kind: byte, payload: seq<byte>, address: nat, wordOnly: bool) returns (ok: bool)
      requires Valid() && !run.dead && Storable(Block(kind, address, payload))
      modifies this, storage`writes, storage.data
      ensures Valid() && Front(storage.data[..]) == Front(old(storage.data[..]))
      ensures (run, ok) == RunPut(old(run), Block(kind, address, payload), wordOnly, Limit(), Fails())
      ensures ok ==> !run.dead
      ensures computeSizeOnly ==> storage.data[..] == old(storage.data[..]) && storage.writes == old(storage.writes)
    {
      hide Front, Put, AllWork, Room, BlockBytes, BlockHeader, Splice, Holds;
      ghost var was, before := storage.data[..], run;
      ghost var b := Block(kind, address, payload);
      PutIsPart(run.ctx, b, wordOnly, Limit());
      NeverFails();
      ok := WriteBlock(kind, payload, address, wordOnly, run.ctx);
      run := RunPut(run, b, wordOnly, Limit(), Fails()).0;
      match PartOf(before.ctx, b, Limit()) {
        case None =>
        case Some(p) =>
          BytesOfBlock(p);
          if !run.dead && !computeSizeOnly {
            HoldsMore(was, before.bytes, BlockBytes(p));
          }
      }
    }

    /** One piece of information about the device, if there is any; `left` is what is left to write. */
    method WriteInfo(kind: byte, data: Option<seq<byte>>, ghost left: seq<Field>) returns (ok: bool)
      requires Valid() && !run.dead && Writable(left) && left != [] && left[0] == Field(kind, data)
      modifies this, storage`writes, storage.data
      ensures Valid() && (ok ==> !run.dead) && Front(storage.data[..]) == Front(old(storage.data[..]))
      ensures RunAll(old(run), InfosOf(left), Limit(), Fails()) ==
              if ok then RunAll(run, InfosOf(left[1..]), Limit(), Fails()) else (run, false)
      ensures computeSizeOnly ==> storage.data[..] == old(storage.data[..]) && storage.writes == old(storage.writes)
    {
      hide Valid, Front, RunPut;
      RunAllConcat(run, Info(kind, data), InfosOf(left[1..]), Limit(), Fails());
      if data == None {
        return true;
      }
      SingleRun(run, Piece(false, Block(kind, 0, data.value), false), Limit(), Fails());
      ok := WriteNext(kind, data.value, 0, false);
    }

    /** Pads the offset to a word; what goes wrong here is ignored. */
    method InsertPaddingIfNecessary()
      requires Valid() && !run.dead
      modifies this, storage`writes, storage.data
      ensures Valid() && Front(storage.data[..]) == Front(old(storage.data[..]))
      ensures run == RunPad(old(run), Limit(), Fails()) && !run.dead
      ensures computeSizeOnly ==> storage.data[..] == old(storage.data[..]) && storage.writes == old(storage.writes)
    {
      hide Front, BlockBytes, BlockHeader, Splice, Holds, Put, Room, AllWork, WriteCount, ByWord, Pad, Add, PartOf;
      var remainder := offset % 4;
      if remainder == 0 {
        return;
      }
      ghost var was, before := storage.data[..], run;
      ghost var b := PaddingBlock(4 - remainder);
      PaddingIsStorable(4 - remainder);
      PadIsPut(run.ctx, Limit());
      BytesOfBlock(b);
      if Fits(run.ctx, b, Limit()) {
        PadFits(run.ctx, Limit());
        TwoWrites(run.ctx, b, storage.writes);
      } else {
        PadNeverPartly(run.ctx, Limit());
        NoPartOfPadding(run.ctx, Limit());
      }
      var _ := WriteBlock(PADDING, Repeat(0, 4 - remainder), 0, false, run.ctx);
      run := RunPad(run, Limit(), Fails());
      if !computeSizeOnly && Fits(before.ctx, b, Limit()) {
        HoldsMore(was, before.bytes, BlockBytes(b));
        HoldsMore(was, before.bytes, BlockHeader(b));
      }
    }

    /** A block that is not written by words takes two writes. */
    lemma TwoWrites(c: Ctx, b: Block, n: nat)
      requires b.payload != [] && Fits(c, b, Limit())
      ensures PartOf(c, b, Limit()) == Some(b) && !ByWord(b, false) && WriteCount(b, false) == 2
      ensures AllWork(Fails(), n, WriteCount(b, false)) <==> !Fails()(n) && !Fails()(n + 1)
      ensures Add(c, b).offset == c.offset + BlockSize(b) && Add(c, b).truncated == c.truncated
    {
    }

    method WriteRegion(r: Region) returns (ok: bool)
      requires Valid() && !run.dead && Storable(Block(MEMORY, r.address, r.data))
      modifies this, storage`writes, storage.data
      ensures Valid() && (ok ==> !run.dead) && Front(storage.data[..]) == Front(old(storage.data[..]))
      ensures Storable(PieceOf(r).block) && (run, ok) == RunPiece(old(run), PieceOf(r), Limit(), Fails())
      ensures computeSizeOnly ==> storage.data[..] == old(storage.data[..]) && storage.writes == old(storage.writes)
    {
      hide Valid, Front, RunPad;
      InsertPaddingIfNecessary();
      if r.kind == CachedMemory(false) {
        return true;
      }
      var kind := if r.kind.ArmMpuUnrolled? then ARM_MPU else MEMORY;
      ok := WriteNext(kind, r.data, r.address, r.kind.MemoryWordAccessOnly?);
    }

    method WriteRegions(regions: seq<Region>, ghost rest: seq<Piece>) returns (ok: bool)
      requires Valid() && !run.dead && RegionsStorable(regions) && AllPiecesStorable(rest)
      modifies this, storage`writes, storage.data
      ensures Valid() && (ok ==> !run.dead) && Front(storage.data[..]) == Front(old(storage.data[..]))
      ensures AllPiecesStorable(PiecesOf(regions) + rest)
      ensures RunAll(old(run), PiecesOf(regions) + rest, Limit(), Fails()) ==
              if ok then RunAll(run, rest, Limit(), Fails()) else (run, false)
      ensures computeSizeOnly ==> storage.data[..] == old(storage.data[..]) && storage.writes == old(storage.writes)
    {
      hide Valid, Front, RunPiece, PieceOf, Storable;
      RunAllConcat(run, PiecesOf(regions), rest, Limit(), Fails());
      var i := 0;
      assert regions[0..] == regions;
      while i < |regions|
        invariant i <= |regions| && Valid() && !run.dead
        invariant Front(storage.data[..]) == Front(old(storage.data[..]))
        invariant computeSizeOnly ==> storage.data[..] == old(storage.data[..]) && storage.writes == old(storage.writes)
        invariant RunAll(old(run), PiecesOf(regions), Limit(), Fails()) ==
                  RunAll(run, PiecesOf(regions[i..]), Limit(), Fails())
      {
        assert regions[i..][0] == regions[i] && regions[i..][1..] == regions[i + 1..];
        assert PiecesOf(regions[i..])[1..] == PiecesOf(regions[i + 1..]);
        RegionIsStorable(regions, i);
        ok := WriteRegion(regions[i]);
        if !ok {
          return false;
        }
        i := i + 1;
      }
      return true;
    }

    /** Everything that comes before the regions. */
    method WritePreamble(info: SaveInfo, dev: Device) returns (ok: bool)
      requires Valid() && !run.dead && Possible(info, dev)
      modifies this, storage`writes, storage.data
      ensures Valid() && (ok ==> !run.dead) && Front(storage.data[..]) == Front(old(storage.data[..]))
      ensures (run, ok) == RunAll(old(run), Preamble(info, dev), Limit(), Fails())
      ensures computeSizeOnly ==> storage.data[..] == old(storage.data[..]) && storage.writes == old(storage.writes)
    {
      hide Valid, Front, RunAll, Word, InfosOf;
      ghost var left := FrontFields(info, dev) + [TraceField(info)];
      ghost var rest := [TraceField(info)];
      assert left[1..] == DeviceFields(dev) + rest && rest[1..] == [];
      NothingToRun(Limit(), Fails());
      NoFields();
      ok := WriteInfo(REGISTERS, info.regs, left);
      if !ok {
        return;
      }
      ok := WriteDeviceInfo(info, dev, rest);
      if !ok {
        return;
      }
      ok := WriteInfo(TRACE_REASON, Some(Word(info.traceReason)), rest);
    }

    method WriteDeviceInfo(info: SaveInfo, dev: Device, ghost rest: seq<Field>) returns (ok: bool)
      requires Valid() && !run.dead && Possible(info, dev) && Writable(DeviceFields(dev) + rest) && Writable(rest)
      modifies this, storage`writes, storage.data
      ensures Valid() && (ok ==> !run.dead) && Front(storage.data[..]) == Front(old(storage.data[..]))
      ensures RunAll(old(run), InfosOf(DeviceFields(dev) + rest), Limit(), Fails()) ==
              if ok then RunAll(run, InfosOf(rest), Limit(), Fails()) else (run, false)
      ensures computeSizeOnly ==> storage.data[..] == old(storage.data[..]) && storage.writes == old(storage.writes)
    {
      hide Valid, Front, RunAll, Word, InfosOf;
      ghost var machine := [Field(MACHINE_TYPE, Some(Word(dev.machineType)))] + rest;
      ghost var hardware := [Field(HARDWARE_VERSION, dev.hardwareVersion)] + machine;
      ghost var kind := [Field(SOFTWARE_TYPE, dev.softwareType)] + hardware;
      ghost var version := [Field(SOFTWARE_VERSION, dev.softwareVersion)] + kind;
      ghost var serial := [Field(DEVICE_SERIAL, dev.serial)] + version;
      ghost var left := [Field(BUILD_ID, dev.buildId)] + serial;
      assert DeviceFields(dev) + rest == left;
      assert machine[1..] == rest && hardware[1..] == machine && kind[1..] == hardware;
      assert version[1..] == kind && serial[1..] == version && left[1..] == serial;
      ok := WriteInfo(BUILD_ID, dev.buildId, left);
      if !ok { return; }
      ok := WriteInfo(DEVICE_SERIAL, dev.serial, serial);
      if !ok { return; }
      ok := WriteInfo(SOFTWARE_VERSION, dev.softwareVersion, version);
      if !ok { return; }
      ok := WriteInfo(SOFTWARE_TYPE, dev.softwareType, kind);
      if !ok { return; }
      ok := WriteInfo(HARDWARE_VERSION, dev.hardwareVersion, hardware);
      if !ok { return; }
      ok := WriteInfo(MACHINE_TYPE, Some(Word(dev.machineType)), machine);
    }

    /** The regions of the architecture, of the library, and those to be saved. */
    method WriteAllRegions(info: SaveInfo, dev: Device) returns (completed: bool)
      requires Valid() && !run.dead && Possible(info, dev)
      modifies this, storage`writes, storage.data
      ensures Valid() && Front(storage.data[..]) == Front(old(storage.data[..]))
      ensures (run, completed) == RunAll(old(run), Regions(info, dev), Limit(), Fails())
      ensures computeSizeOnly ==> storage.data[..] == old(storage.data[..]) && storage.writes == old(storage.writes)
    {
      hide Valid, Front, RunAll, PiecesOf, AllPiecesStorable, RegionsStorable;
      ghost var user := PiecesOf(info.regions);
      ghost var sdk := PiecesOf(dev.sdkRegions) + user;
      ConcatKeeps(PiecesOf(dev.sdkRegions), user);
      assert Regions(info, dev) == PiecesOf(dev.archRegions) + sdk;
      assert user + [] == user;
      NothingToRun(Limit(), Fails());
      completed := WriteRegions(dev.archRegions, sdk);
      if !completed { return; }
      completed := WriteRegions(dev.sdkRegions, user);
      if !completed { return; }
      completed := WriteRegions(info.regions, []);
    }
  }

  lemma RegionIsStorable(regions: seq<Region>, i: nat)
    requires RegionsStorable(regions) && i < |regions|
    ensures Storable(Block(MEMORY, regions[i].address, regions[i].data))
    ensures RegionsStorable(regions[i + 1..])
  {
  }

  lemma NoFields()
    ensures InfosOf([]) == []
  {
  }

  lemma NothingToRun(limit: Option<nat>, fails: Failures)
    ensures AllPiecesStorable([]) && forall r: Run :: RunAll(r, [], limit, fails) == (r, true)
  {
  }

  lemma PadIsPut(c: Ctx, limit: Option<nat>)
    requires c.offset % 4 != 0
    ensures Pad(c, limit) == Put(c, PaddingBlock(4 - c.offset % 4), false, limit).0
  {
  }

  lemma NoPartOfPadding(c: Ctx, limit: Option<nat>)
    requires c.offset % 4 != 0 && !Fits(c, PaddingBlock(4 - c.offset % 4), limit)
    ensures PartOf(c, PaddingBlock(4 - c.offset % 4), limit) == None
  {
  }

  lemma NeverFails()
    ensures forall from: nat, n: nat :: AllWork(NEVER, from, n)
    ensures forall i: nat :: !NEVER(i)
  {
  }

  // ---- A coredump ----

  lemma AroundBlocks(s: seq<byte>, at: nat, f: seq<byte>, h: seq<byte>)
    requires |h| == HEADER_SIZE <= at && at + |f| <= |s|
    ensures Splice(Splice(s, at, f), 0, h)[..at + |f|] == h + s[HEADER_SIZE..at] + f
  {
    hide Splice;
    var t := Splice(s, at, f);
    FrontOfSplice(s, at, f);
    HeaderSplice(t, h);
    assert Splice(t, 0, h)[..at + |f|] == h + t[HEADER_SIZE..at + |f|];
    assert t[HEADER_SIZE..at + |f|] == (s[..at] + f)[HEADER_SIZE..] == s[HEADER_SIZE..at] + f;
  }

  lemma FrontOfSplice(s: seq<byte>, at: nat, f: seq<byte>)
    requires at + |f| <= |s|
    ensures Splice(s, at, f)[..at + |f|] == s[..at] + f
  {
  }

  lemma HeaderSplice(t: seq<byte>, h: seq<byte>)
    requires |h| == HEADER_SIZE <= |t|
    ensures Splice(t, 0, h) == h + t[HEADER_SIZE..]
  {
  }

  lemma NoMagicInFront(s: seq<byte>, t: seq<byte>)
    requires Front(s) == Front(t) && |s| == |t|
    ensures HasMagic(s) <==> HasMagic(t)
  {
    if |s| >= HEADER_SIZE {
      assert s[..4] == s[..HEADER_SIZE][..4] == t[..HEADER_SIZE][..4] == t[..4];
    }
  }

  lemma ErasedHasNoMagic(s: seq<byte>)
    requires forall i :: 0 <= i < |s| ==> s[i] == ERASED
    ensures !HasMagic(s)
  {
  }

  lemma HeaderHasMagic(s: seq<byte>, total: nat)
    requires |s| >= HEADER_SIZE && total < UINT32_LIMIT
    ensures HasMagic(Splice(s, 0, Header(total)))
  {
    hide Word, FromWord;
    HeaderSplice(s, Header(total));
    WordRoundTrip(MAGIC);
    assert (Header(total) + s[HEADER_SIZE..])[..4] == Word(MAGIC);
  }

  /** When the preamble was written, there is room for the footer. */
  lemma RoomForFooter(info: SaveInfo, dev: Device, storageSize: nat, fails: Failures, writes: nat)
    requires Possible(info, dev)
    requires RunAll(Start(writes), Preamble(info, dev), Some(BlockLimit(storageSize)), fails).1
    ensures BlockLimit(storageSize) + FOOTER_SIZE == storageSize && HEADER_SIZE <= BlockLimit(storageSize)
  {
    hide RunAll, Preamble, Possible, PutAll;
    PreambleRun(info, dev, BlockLimit(storageSize), fails, writes);
  }

  /** The storage, once the header and the footer were put around these bytes. */
  predicate IsImage(s: seq<byte>, bytes: seq<byte>, truncated: bool) {
    var total := HEADER_SIZE + |bytes| + FOOTER_SIZE;
    total <= |s| && total < UINT32_LIMIT && s[..total] == Header(total) + bytes + Footer(truncated)
  }

  lemma FinishedIsImage(s: seq<byte>, bytes: seq<byte>, truncated: bool)
    requires Holds(s, bytes) && HEADER_SIZE + |bytes| + FOOTER_SIZE <= |s| < UINT32_LIMIT
    ensures var at := HEADER_SIZE + |bytes|;
            IsImage(Splice(Splice(s, at, Footer(truncated)), 0, Header(at + FOOTER_SIZE)), bytes, truncated)
  {
    hide Footer, Header;
    var at := HEADER_SIZE + |bytes|;
    AroundBlocks(s, at, Footer(truncated), Header(at + FOOTER_SIZE));
  }

  /** Writes the footer and then, as the very last thing, the header. */
  method WriteEnds(w: Writer) returns (ok: bool, total: nat)
    requires w.Valid() && !w.run.dead && w.offset + FOOTER_SIZE < UINT32_LIMIT
    requires !w.computeSizeOnly ==> w.offset + FOOTER_SIZE <= w.storage.data.Length < UINT32_LIMIT
    modifies w`offset, w`writeError, w.storage`writes, w.storage.data
    ensures total == if ok then w.run.ctx.offset + FOOTER_SIZE else 0
    ensures w.computeSizeOnly ==>
              ok && w.storage.data[..] == old(w.storage.data[..]) && w.storage.writes == old(w.storage.writes)
    ensures !w.computeSizeOnly ==>
              && ok == AllWork(w.storage.fails, w.run.writes, 2)
              && (if ok then IsImage(w.storage.data[..], w.run.bytes, w.run.ctx.truncated) && HasMagic(w.storage.data[..])
                  else HasMagic(w.storage.data[..]) == HasMagic(old(w.storage.data[..])))
  {
    hide IsImage, Footer, Header, Word, FromWord, Front, Splice, HasMagic, Holds;
    ghost var was := w.storage.data[..];
    if !w.computeSizeOnly {
      FrontIsKept(was, w.offset, Footer(w.truncated));
      NoMagicInFront(was, Splice(was, w.offset, Footer(w.truncated)));
      FinishedIsImage(was, w.run.bytes, w.truncated);
    }
    total := 0;
    ok := w.PlatformWrite(Footer(w.truncated));
    if !ok {
      return;
    }
    var end := w.offset;
    w.offset := 0;
    if !w.computeSizeOnly {
      HeaderHasMagic(w.storage.data[..], end);
    }
    ok := w.PlatformWrite(Header(end));
    if ok {
      total := end;
    }
  }

  /** The common part of saving a coredump and of computing its size. */
  method WriteSections(storage: Storage, info: SaveInfo, dev: Device, computeSizeOnly: bool)
    returns (ok: bool, totalSize: nat)
    requires Possible(info, dev) && storage.data.Length < UINT32_LIMIT
    requires computeSizeOnly ==> SaveSize(info, dev) < UINT32_LIMIT
    modifies storage`writes, storage.data
    ensures computeSizeOnly ==>
              && storage.data[..] == old(storage.data[..]) && storage.writes == old(storage.writes)
              && totalSize == SaveSize(info, dev)
    ensures !computeSizeOnly && HasMagic(old(storage.data[..])) ==> !ok && storage.data[..] == old(storage.data[..])
    ensures !computeSizeOnly && !HasMagic(old(storage.data[..])) ==>
              var outcome := Outcome(info, dev, storage.data.Length, storage.fails, old(storage.writes));
              && ok == (storage.readable && storage.erasable && outcome.Some?)
              && (HasMagic(storage.data[..]) <==> ok)
              && (ok ==>
                    && totalSize == outcome.value.ctx.offset + FOOTER_SIZE
                    && IsImage(storage.data[..], outcome.value.bytes, outcome.value.ctx.truncated))
  {
    hide IsImage, HasMagic, RunAll, Regions, Preamble, Possible, Front, Holds, PutAll;
    ok, totalSize := false, 0;
    if |info.regions| == 0 {
      NoRegions(storage.data[..], info, dev);
      return;
    }
    var size := 0;
    if !computeSizeOnly {
      size := storage.data.Length;
      TooShort(info, dev, size, storage.fails, storage.writes);
      var readOk, hdr := storage.Read(0, HEADER_SIZE);
      if !readOk {
        return;
      }
      MagicIsSeen(storage.data[..], hdr);
      if FromWord(hdr[..4]) == MAGIC {
        return;
      }
      var eraseOk := storage.Erase(0, size);
      if !eraseOk {
        return;
      }
      ErasedHasNoMagic(storage.data[..]);
    } else {
      DryRunIsPlan(info, dev, storage.writes);
    }
    ghost var erased := storage.data[..];
    var w := new Writer(storage, computeSizeOnly, size);
    var preambleOk := w.WritePreamble(info, dev);
    NoMagicWhenFrontIsKept(erased, storage.data[..]);
    if !preambleOk {
      return;
    }
    if !computeSizeOnly {
      RoomForFooter(info, dev, size, storage.fails, old(storage.writes));
    }
    var completed := w.WriteAllRegions(info, dev);
    NoMagicWhenFrontIsKept(erased, storage.data[..]);
    if !completed && w.writeError {
      return;
    }
    assert !w.run.dead by {
      DeadIsError(info, dev, w.Limit(), w.Fails(), old(storage.writes));
    }
    ok, totalSize := WriteEnds(w);
  }

  lemma NoRegions(s: seq<byte>, info: SaveInfo, dev: Device)
    requires Possible(info, dev) && info.regions == []
    ensures Plan(info, dev, None) == None
  {
  }

  /** After a run of the preamble and the regions, what is lost is lost to an error. */
  lemma DeadIsError(info: SaveInfo, dev: Device, limit: Option<nat>, fails: Failures, writes: nat)
    requires Possible(info, dev)
    ensures var (p, ready) := RunAll(Start(writes), Preamble(info, dev), limit, fails);
            var (q, completed) := RunAll(p, Regions(info, dev), limit, fails);
            ready && (completed || !q.error) ==> !q.dead
  {
    hide RunAll, Preamble, Regions, Possible, PutAll;
    StartIsIntact(writes);
    RunIsMeasured(Start(writes), Preamble(info, dev), limit, fails);
    var p := RunAll(Start(writes), Preamble(info, dev), limit, fails).0;
    RunIsMeasured(p, Regions(info, dev), limit, fails);
    WithoutFailure(p, Regions(info, dev), limit, fails);
  }

  /** The dry run does not fail and gives the computed size. */
  lemma DryRunIsPlan(info: SaveInfo, dev: Device, writes: nat)
    requires Possible(info, dev) && info.regions != []
    ensures var (p, ready) := RunAll(Start(writes), Preamble(info, dev), None, NEVER);
            var (q, completed) := RunAll(p, Regions(info, dev), None, NEVER);
            ready && completed && !q.error && q.ctx.offset + FOOTER_SIZE == SaveSize(info, dev)
  {
    hide RunAll, Preamble, Regions, Possible, PutAll;
    NeverFails();
    RunSucceeds(Start(writes), Preamble(info, dev), None, NEVER);
    WithoutFailure(Start(writes), Preamble(info, dev), None, NEVER);
    DryAllNeverFlags(FIRST, Preamble(info, dev));
    var p := RunAll(Start(writes), Preamble(info, dev), None, NEVER).0;
    RunSucceeds(p, Regions(info, dev), None, NEVER);
    WithoutFailure(p, Regions(info, dev), None, NEVER);
    DryAllNeverFlags(p.ctx, Regions(info, dev));
  }

  /** The size that saving this coredump takes. */
  method GetSaveSize(storage: Storage, info: SaveInfo, dev: Device) returns (size: nat)
    requires Possible(info, dev) && storage.data.Length < UINT32_LIMIT && SaveSize(info, dev) < UINT32_LIMIT
    modifies storage`writes, storage.data
    ensures size == SaveSize(info, dev)
    ensures storage.data[..] == old(storage.data[..]) && storage.writes == old(storage.writes)
  {
    hide Possible, Plan;
    var _, total := WriteSections(storage, info, dev, true);
    size := total;
  }

  /** Saves a coredump. One that is there already stays; otherwise the storage holds one afterwards if and
    * only if this succeeds, wherever it was interrupted. When it succeeds, the storage reads back as what is
    * expected if and only if no padding is torn. If no write failed at all, none is, and the coredump is
    * flagged as truncated if and only if the computed size is above that of the storage. A save without
    * failures succeeds if there are regions, and room for what comes before them. */
  method Save(storage: Storage, info: SaveInfo, dev: Device) returns (ok: bool)
    requires Possible(info, dev) && storage.data.Length < UINT32_LIMIT
    modifies storage`writes, storage.data
    ensures HasMagic(old(storage.data[..])) ==> !ok && storage.data[..] == old(storage.data[..])
    ensures !HasMagic(old(storage.data[..])) ==>
              var outcome := Outcome(info, dev, storage.data.Length, storage.fails, old(storage.writes));
              && (ok <==> HasMagic(storage.data[..]))
              && ok == (storage.readable && storage.erasable && outcome.Some?)
              && (ok ==> (ReadsBack(storage.data[..], Expected(info, dev)) <==> !outcome.value.torn))
              && (ok && !outcome.value.torn && Parse(storage.data[..]).value.truncated ==>
                    storage.data.Length < FromWord(storage.data[..][8..12]) + 16)
              && (ok && !outcome.value.error ==>
                    Parse(storage.data[..]).Some? &&
                    (Parse(storage.data[..]).value.truncated <==> SaveSize(info, dev) > storage.data.Length))
              && (ok && ForGood(storage.fails) ==> !outcome.value.error && !outcome.value.torn)
              && ((forall i: nat :: i >= old(storage.writes) ==> !storage.fails(i)) ==>
                    (outcome.Some? <==> info.regions != [] && LeastStorage(info, dev) <= storage.data.Length) &&
                    (ok ==> !outcome.value.error))
  {
    hide Possible, Plan, HasMagic, Preamble, Regions, Parse, ReadsBack, SaveSize, Outcome, ForGood, Header, Footer,
         Requested, Expected, LeastStorage, FromWord;
    var total;
    ok, total := WriteSections(storage, info, dev, false);
    ghost var size, fails, n := storage.data.Length, storage.fails, old(storage.writes);
    if forall i: nat :: i >= n ==> !fails(i) {
      SucceedsWithoutFailure(info, dev, size, fails, n);
    }
    if ok && !HasMagic(old(storage.data[..])) {
      ghost var q := Outcome(info, dev, size, fails, n).value;
      OutcomeParts(info, dev, size, fails, n);
      ImageReadsBack(storage.data[..], info, dev, fails, n);
      if ForGood(fails) {
        NoErrorForGood(info, dev, size, fails, n);
      }
    }
  }

  lemma ImageReadsBack(s: seq<byte>, info: SaveInfo, dev: Device, fails: Failures, writes: nat)
    requires Possible(info, dev) && Outcome(info, dev, |s|, fails, writes).Some?
    requires var q := Outcome(info, dev, |s|, fails, writes).value; IsImage(s, q.bytes, q.ctx.truncated)
    ensures var q := Outcome(info, dev, |s|, fails, writes).value;
            && (ReadsBack(s, Expected(info, dev)) <==> !q.torn)
            && (!q.torn && Parse(s).value.truncated ==> |s| < FromWord(s[8..12]) + 16)
            && (!q.error ==> Parse(s).Some? && (Parse(s).value.truncated <==> SaveSize(info, dev) > |s|))
  {
    hide Possible, Plan, Preamble, Regions, Parse, SaveSize, Outcome, Header, Footer, Expected, IsDumpOf,
         RunAll, ParseBlocks, BlockLimit, FromWord;
    var q := Outcome(info, dev, |s|, fails, writes).value;
    OutcomeParts(info, dev, |s|, fails, writes);
    var total := q.ctx.offset + FOOTER_SIZE;
    var behind := s[total..];
    assert s == Header(total) + q.bytes + Footer(q.ctx.truncated) + behind by {
      assert s == s[..total] + s[total..];
    }
    ReadsBackUnlessTorn(info, dev, |s|, fails, writes, behind);
    SectionsParse(q.bytes, q.ctx.truncated, total, behind);
    HeaderReadsBack(total, q.bytes, Footer(q.ctx.truncated), behind);
    if !q.error {
      OutcomeIsPlan(info, dev, |s|, fails, writes);
      NotTornWithoutError(info, dev, |s|, fails, writes);
      NoRegionsNoPlan(info, dev, Some(BlockLimit(|s|)));
      DryRunIsExact(info, dev, |s|);
    }
  }

  lemma NotTornWithoutError(info: SaveInfo, dev: Device, size: nat, fails: Failures, writes: nat)
    requires Possible(info, dev)
    requires var o := Outcome(info, dev, size, fails, writes); o.Some? && !o.value.error
    ensures !Outcome(info, dev, size, fails, writes).value.torn
  {
    hide RunAll, Preamble, Regions, Possible, PutAll;
    OutcomeParts(info, dev, size, fails, writes);
    var limit := Some(BlockLimit(size));
    PreambleRun(info, dev, BlockLimit(size), fails, writes);
    WithoutFailure(RunAll(Start(writes), Preamble(info, dev), limit, fails).0, Regions(info, dev), limit, fails);
  }

  lemma NoRegionsNoPlan(info: SaveInfo, dev: Device, limit: Option<nat>)
    requires Possible(info, dev)
    ensures Plan(info, dev, limit).Some? ==> info.regions != []
  {
  }

  /** A save that succeeds and does not read back: a write of padding fails, and the code ignores it. */
  method SaveWithTornPadding() returns (ok: bool, storage: Storage)
    ensures Possible(EXAMPLE_INFO, EXAMPLE_DEVICE)
    ensures ok && HasMagic(storage.data[..])
    ensures !ReadsBack(storage.data[..], Expected(EXAMPLE_INFO, EXAMPLE_DEVICE))
  {
    hide Possible, HasMagic, Preamble, Regions, Parse, ReadsBack, Outcome, Expected;
    ExampleIsTorn();
    storage := new Storage(EXAMPLE_SIZE, true, true, EXAMPLE_FAILURES);
    ErasedHasNoMagic(storage.data[..]);
    ok := Save(storage, EXAMPLE_INFO, EXAMPLE_DEVICE);
  }

  method HasValidCoredump(storage: Storage) returns (has: bool, total: nat)
    ensures has <==> storage.readable && HasMagic(storage.data[..])
    ensures has && Parse(storage.data[..]).Some? ==>
              total <= storage.data.Length &&
              Parse(storage.data[..total]) == Parse(storage.data[..])
  {
    hide FromWord, ParseBlocks;
    total := 0;
    var readOk, hdr := storage.Read(0, HEADER_SIZE);
    if !readOk || storage.data.Length == 0 {
      return false, 0;
    }
    MagicIsSeen(storage.data[..], hdr);
    has := FromWord(hdr[..4]) == MAGIC;
    if has {
      total := FromWord(hdr[8..12]);
      PartsOfFront(storage.data[..], hdr);
      if Parse(storage.data[..]).Some? {
        ParsePrefix(storage.data[..], total);
        assert storage.data[..][..total] == storage.data[..total];
      }
    }
  }

  lemma PartsOfFront(s: seq<byte>, hdr: seq<byte>)
    requires |s| >= HEADER_SIZE && hdr == s[..HEADER_SIZE]
    ensures hdr[8..12] == s[8..12]
  {
  }

  /** Nothing behind the total size matters. */
  lemma ParsePrefix(s: seq<byte>, total: nat)
    requires Parse(s).Some? && total == FromWord(s[8..12])
    ensures total <= |s| && Parse(s[..total]) == Parse(s)
  {
    hide FromWord, ParseBlocks;
    var t := s[..total];
    assert t[..4] == s[..4] && t[4..8] == s[4..8] && t[8..12] == s[8..12];
    assert t[total - FOOTER_SIZE..total] == s[total - FOOTER_SIZE..total];
    assert t[HEADER_SIZE..total - FOOTER_SIZE] == s[HEADER_SIZE..total - FOOTER_SIZE];
  }

  lemma NoMagicWhenFrontIsKept(s: seq<byte>, t: seq<byte>)
    ensures Front(s) == Front(t) && |s| == |t| ==> (HasMagic(s) <==> HasMagic(t))
  {
    hide HasMagic, Front;
    if Front(s) == Front(t) && |s| == |t| {
      NoMagicInFront(s, t);
    }
  }

  lemma MagicIsSeen(s: seq<byte>, hdr: seq<byte>)
    requires |s| >= HEADER_SIZE && hdr == s[..HEADER_SIZE]
    ensures FromWord(hdr[..4]) == MAGIC <==> HasMagic(s)
  {
    assert s[..HEADER_SIZE][..4] == s[..4];
  }

  lemma TooShort(info: SaveInfo, dev: Device, size: nat, fails: Failures, writes: nat)
    requires Possible(info, dev)
    ensures size < HEADER_SIZE ==> Outcome(info, dev, size, fails, writes) == None
  {
    hide RunAll, Preamble, Regions, Possible, PutAll;
    PreambleRun(info, dev, BlockLimit(size), fails, writes);
  }
}
