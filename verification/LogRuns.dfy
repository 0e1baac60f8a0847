/** What holds of the log buffer and its reader over whole runs. */
module LogRuns {
  import opened Bytes
  import opened LogQueue
  import opened LogStorage
  import opened LogUpload
  import opened Cbor

  // ---- When the cursor stays right ----

  lemma {:induction false} CreditSplits(entries: seq<Entry>, k: nat)
    requires k <= |entries|
    ensures Credit(entries) == Credit(entries[..k]) + Credit(entries[k..])
    decreases k
  {
    hide IsRead, IsSent, Size;
    if k == 0 {
      assert entries[..0] == [] && entries[0..] == entries;
    } else {
      CreditSplits(entries[1..], k - 1);
      ShiftSlices(entries, k);
    }
  }

  lemma {:induction false} CreditOfRead(entries: seq<Entry>)
    requires forall i :: 0 <= i < |entries| ==> IsRead(entries[i])
    ensures Credit(entries) == TotalSize(entries) && Lost(entries) == 0
    decreases |entries|
  {
    hide IsRead, IsSent, Size;
    if entries != [] {
      CreditOfRead(entries[1..]);
      FrontTotal(entries, |entries|);
      assert entries[..|entries|] == entries && entries[1..][..|entries| - 1] == entries[1..];
    }
  }

  lemma {:induction false} CreditOfUnread(entries: seq<Entry>)
    requires forall i :: 0 <= i < |entries| ==> !IsRead(entries[i])
    ensures Credit(entries) <= TotalSize(entries)
    ensures Credit(entries) == 0 <==> forall i :: 0 <= i < |entries| ==> !IsSent(entries[i])
    ensures Credit(entries) == 0 ==> Lost(entries) == |entries|
    decreases |entries|
  {
    hide IsRead, IsSent;
    if entries != [] {
      var rest := entries[1..];
      CreditOfUnread(rest);
      FrontTotal(entries, |entries|);
      assert entries[..|entries|] == entries && rest[..|entries| - 1] == rest;
      assert forall i :: 1 <= i < |entries| ==> entries[i] == rest[i - 1];
    }
  }

  /** How many of `r` read entries remain of when `k` entries are dropped. */
  function Remaining(r: nat, k: nat): nat {
    if k <= r then r - k else 0
  }

  lemma Slices(entries: seq<Entry>, k: nat, r: nat)
    requires k <= |entries| && r <= |entries|
    ensures k <= r ==> entries[..r][..k] == entries[..k] && entries[..r][k..] == entries[k..][..r - k]
    ensures r <= k ==> entries[..k][..r] == entries[..r] && entries[..k][r..] == entries[r..k]
  {
  }

  lemma NoneSentInPart(entries: seq<Entry>, a: nat, b: nat)
    requires a <= b <= |entries|
    ensures (forall i :: a <= i < b ==> !IsSent(entries[i])) <==>
            (forall j :: 0 <= j < |entries[a..b]| ==> !IsSent(entries[a..b][j]))
  {
    hide IsSent;
    var mid := entries[a..b];
    if forall j :: 0 <= j < |mid| ==> !IsSent(mid[j]) {
      forall i | a <= i < b
        ensures !IsSent(entries[i])
      {
        assert entries[i] == mid[i - a];
      }
    }
  }

  /** What dropping `k` entries does to the cursor, when only read entries are in front of it. */
  lemma CursorAfterDrop(s: State, r: nat, k: nat)
    requires CursorAt(s, r) && k <= |s.entries| && TotalSize(s.entries) < UINT32_LIMIT
    ensures var right := TotalSize(s.entries[k..][..Remaining(r, k)]);
            Minus(s.cursor, Credit(s.entries[..k])) == right <==> forall i :: r <= i < k ==> !IsSent(s.entries[i])
  {
    hide Credit, TotalSize, IsRead, IsSent, Minus;
    var entries := s.entries;
    Slices(entries, k, r);
    TotalSizeSplits(entries, r);
    TotalSizeSplits(entries, k);
    if k <= r {
      TotalSizeSplits(entries[..r], k);
      CreditOfRead(entries[..k]);
      Difference(TotalSize(entries[..k]), TotalSize(entries[k..][..r - k]));
    } else {
      TotalSizeSplits(entries[..k], r);
      CreditSplits(entries[..k], r);
      CreditOfRead(entries[..r]);
      var mid := entries[r..k];
      CreditOfUnread(mid);
      NoneSentInPart(entries, r, k);
      EmptyTotal();
      assert entries[k..][..0] == [];
      BelowZero(TotalSize(entries[..r]), Credit(mid));
    }
  }

  lemma Difference(a: nat, b: nat)
    requires a + b < UINT32_LIMIT
    ensures Minus(a + b, a) == b
  {
  }

  lemma BelowZero(a: nat, c: nat)
    requires c < UINT32_LIMIT
    ensures Minus(a, a + c) == 0 <==> c == 0
  {
  }

  lemma PushKeepsPrefix(entries: seq<Entry>, e: Entry, n: nat)
    requires n <= |entries|
    ensures (entries + [e])[..n] == entries[..n]
  {
  }

  lemma CursorAfterPush(s: State, r: nat, k: nat, e: Entry)
    requires CursorAt(s, r) && !IsRead(e) && k <= |s.entries|
    ensures CursorAt(Push(DropFirst(s, k), e), Remaining(r, k)) <==>
            Minus(s.cursor, Credit(s.entries[..k])) == TotalSize(s.entries[k..][..Remaining(r, k)])
  {
    hide TotalSize, Credit, IsSent, IsRead, Minus, Lost;
    PushKeepsPrefix(s.entries[k..], e, Remaining(r, k));
    var t := Push(DropFirst(s, k), e);
    forall i | 0 <= i < |t.entries|
      ensures IsRead(t.entries[i]) <==> i < Remaining(r, k)
    {
      assert i < |s.entries| - k ==> t.entries[i] == s.entries[k + i];
    }
  }

  /** Saving keeps the cursor at the first unread entry exactly when no entry is dropped that was uploaded
    * but not read: such an entry is counted although the cursor never went past it. */
  lemma SaveKeepsCursor(s: State, r: nat, e: Entry, capacity: nat)
    requires CursorAt(s, r) && !IsRead(e) && TotalSize(s.entries) < UINT32_LIMIT && s.dropped < UINT32_LIMIT
    ensures var k := Evicted(s, e, capacity);
            CursorAt(Save(s, e, capacity), Remaining(r, k)) <==>
            forall i :: r <= i < k ==> !IsSent(s.entries[i])
  {
    hide TotalSize, Credit, IsSent, IsRead, Minus, Size, FreedCount, Free, Lost, Missing, DropFirst, Push;
    var k := Evicted(s, e, capacity);
    if !IsRejected(s, e, capacity) {
      TotalSizeSplits(s.entries, r);
      FreeIs(s, Missing(s, e, capacity));
      CursorAfterDrop(s, r, k);
      CursorAfterPush(s, r, k, e);
    }
  }

  // ---- Runs ----

  /** What is passed to a save, and the time of it, if that is known. */
  datatype Arguments = Arguments(level: nat, compact: bool, timestamp: Option<nat>, log: seq<byte>)

  type Saved = a: Arguments | a.level < 8 && (a.timestamp.Some? ==> a.timestamp.value < UINT32_LIMIT)
    witness Arguments(0, false, None, [])

  function EntryOf(a: Saved): Entry {
    NewEntry(a.level, a.compact, a.timestamp, a.log)
  }

  /** Compact logs are not cut, but ignored. */
  predicate IsIgnored(a: Saved) {
    a.compact && |a.log| > MAX_LINE
  }

  /** What was read is what was saved: the level, the type, the time, and the line, or its first 128 bytes. */
  predicate IsRecord(log: Log, a: Saved) {
    && log.Line? && log.level == a.level && log.compact == a.compact
    && log.msg == (if |a.log| <= 128 then a.log else a.log[..128])
    && match a.timestamp
       case None => log.timestamp == None
       case Some(t) =>
         && log.timestamp.Some? && |log.timestamp.value| == 4
         && var b := log.timestamp.value;
            b[0] as nat + 0x100 * b[1] as nat + 0x1_0000 * b[2] as nat + 0x100_0000 * b[3] as nat == t
  }

  /** From saving to reading: whatever marks an entry has got since, it is read as what was saved. */
  lemma ReadsAsSaved(a: Saved, e: Entry)
    requires SameLog(EntryOf(a), e)
    ensures IsRecord(LineOf(e), a)
  {
    hide Word, BuildHeader;
    HeaderHoldsFields(a.level, a.compact, a.timestamp.Some?, EntryOf(a).msg);
    MessageOf(a.level, a.compact, a.timestamp, a.log);
    assert a.log[..|a.log|] == a.log;
    if a.timestamp.Some? {
      WordRoundTrip(a.timestamp.value);
      assert e.msg[..4] == Word(a.timestamp.value);
      assert e.msg[4..] == a.log[..Min(|a.log|, MAX_LINE)];
    }
  }

  lemma EntryHasNoMarks(a: Saved)
    ensures !IsRead(EntryOf(a)) && !IsSent(EntryOf(a))
  {
    hide BuildHeader;
    HeaderHoldsFields(a.level, a.compact, a.timestamp.Some?, EntryOf(a).msg);
  }

  datatype Delivery = Delivery(place: nat, log: Log)

  /** The logs at these places in the history were uploaded together, but for those that had been before. */
  datatype Upload = Upload(from: nat, to: nat)

  datatype World = World(
    s: State,
    /** The number of logs to upload, as the data source counted them. */
    numLogs: nat,
    /** How many of the entries in the buffer have been read. */
    read: nat,
    /** All logs that were recorded. */
    history: seq<Saved>,
    /** What the reader got, with the place of each log in the history. */
    out: seq<Delivery>,
    evicted: nat,
    rejected: nat,
    /** How many entries were dropped before they were read. */
    lost: nat,
    /** Entries before this place in the history have the sent mark. */
    marked: nat,
    /** The length of the history when the upload was triggered. */
    frozen: nat,
    uploads: seq<Upload>)

  const START := World(EMPTY, 0, 0, [], [], 0, 0, 0, 0, 0, [])

  datatype Op = OpSave(a: Saved) | OpRead | OpTrigger | OpMarkSent | OpReset

  function StepSave(w: World, a: Saved, capacity: nat): World {
    var e := EntryOf(a);
    var k := Evicted(w.s, e, capacity);
    var t := w.(s := Save(w.s, e, capacity));
    if IsIgnored(a) then w
    else if IsRejected(w.s, e, capacity) then t.(rejected := w.rejected + 1)
    else t.(read := Remaining(w.read, k), history := w.history + [a], evicted := w.evicted + k,
            lost := w.lost + Lost(w.s.entries[..k]))
  }

  function StepRead(w: World): World
    requires w.read <= |w.s.entries|
  {
    var (s, log) := Read(w.s, w.read);
    if log.Some? && log.value.Line?
    then w.(s := s, read := w.read + 1, out := w.out + [Delivery(w.evicted + w.read, log.value)])
    else w.(s := s)
  }

  /** The place of the first log that is to be uploaded. */
  function FirstUnsent(w: World): nat {
    Max(w.marked, w.evicted)
  }

  /** Freezes the logs that were not sent yet. */
  function StepTrigger(w: World): World {
    var n := Unsent(w.s.entries);
    if w.s.collecting || n == 0 then w
    else w.(s := w.s.(collecting := true), numLogs := n, frozen := |w.history|)
  }

  /** Marks as many logs as were counted; all of them if no upload is going on. */
  function StepMarkSent(w: World): World {
    var t := w.(s := w.s.(entries := MarkFirst(w.s.entries, w.numLogs), collecting := false), numLogs := 0);
    if w.s.collecting then t.(marked := w.frozen, uploads := w.uploads + [Upload(FirstUnsent(w), w.frozen)])
    else t.(marked := |w.history|)
  }

  /** One call of the logger, its reader or its data source. */
  function Step(w: World, op: Op, capacity: nat): World
    requires w.read <= |w.s.entries|
  {
    match op
    case OpSave(a) => StepSave(w, a, capacity)
    case OpRead => StepRead(w)
    case OpTrigger => StepTrigger(w)
    case OpMarkSent => StepMarkSent(w)
    case OpReset => w.(s := w.s.(collecting := false), numLogs := 0)
  }

  /** The entries in the buffer are the newest recorded ones. */
  ghost predicate Newest(w: World) {
    && |w.history| == w.evicted + |w.s.entries|
    && forall i :: 0 <= i < |w.s.entries| ==> SameLog(EntryOf(w.history[w.evicted + i]), w.s.entries[i])
  }

  /** Every log comes out as it was saved, in the order of saving, and at most once. */
  ghost predicate InOrder(w: World) {
    && (forall j :: 0 <= j < |w.out| ==>
          w.out[j].place < w.evicted + w.read <= |w.history| && IsRecord(w.out[j].log, w.history[w.out[j].place]))
    && (forall i, j :: 0 <= i < j < |w.out| ==> w.out[i].place < w.out[j].place)
  }

  ghost predicate Counted(w: World) {
    && w.s.recorded == |w.history| % UINT32_LIMIT
    && w.s.dropped == (w.rejected + w.lost) % UINT32_LIMIT
    && |w.out| + w.lost == w.evicted + w.read
  }

  /** The sent marks are on all entries up to a place, and on no others. */
  ghost predicate Marked(w: World) {
    && w.marked <= |w.history|
    && forall i :: 0 <= i < |w.s.entries| ==> (IsSent(w.s.entries[i]) <==> w.evicted + i < w.marked)
  }

  /** The logs being uploaded are the unsent ones of the history up to the trigger. */
  ghost predicate Frozen(w: World) {
    if w.s.collecting then FirstUnsent(w) < w.frozen <= |w.history| && w.numLogs == w.frozen - FirstUnsent(w)
    else w.numLogs == 0
  }

  /** No log is uploaded twice, and logs are uploaded in the order of recording. */
  ghost predicate UploadedOnce(w: World) {
    && (forall i :: 0 <= i < |w.uploads| ==> w.uploads[i].from < w.uploads[i].to <= w.marked)
    && (forall i, j :: 0 <= i < j < |w.uploads| ==> w.uploads[i].to <= w.uploads[j].from)
  }

  ghost predicate Sound(w: World, capacity: nat) {
    && CursorAt(w.s, w.read) && TotalSize(w.s.entries) <= capacity
    && Newest(w) && InOrder(w) && Counted(w) && Marked(w) && Frozen(w) && UploadedOnce(w)
  }

  /** The oldest unread log is dropped although it was uploaded. */
  predicate Displaces(w: World, op: Op, capacity: nat) {
    op.OpSave? && !IsIgnored(op.a) && w.read < Evicted(w.s, EntryOf(op.a), capacity) && IsSent(w.s.entries[w.read])
  }

  /** It can go wrong: in a buffer of 10 bytes two logs are uploaded but not read, and a third one takes
    * the place of the first. The cursor is now below zero, far behind the end of the buffer. */
  lemma UploadedUnreadMovesCursor(msg: seq<byte>)
    requires |msg| == 3
    ensures var save := Op.OpSave(Arguments(0, false, None, msg));
            var two := Step(Step(START, save, 10), save, 10);
            var sent := Step(Step(two, OpTrigger, 10), OpMarkSent, 10);
            && Displaces(sent, save, 10)
            && Step(sent, save, 10).s.cursor == UINT32_LIMIT - 5
  {
    var a := Arguments(0, false, None, msg);
    var e := EntryOf(a);
    EntryHasNoMarks(a);
    assert e.msg == msg;
    MarksAreSeparate(e);
    var sent := MarkSent(e);
    hide IsRead, IsSent, MarkSent, BuildHeader, EntryOf;
    var two := Step(Step(START, Op.OpSave(a), 10), Op.OpSave(a), 10);
    assert two.s == State([e, e], 0, 0, 2, 0, false) && two.read == 0 by { TwoSaved(a); }
    assert Unsent([e, e]) == 2 && MarkFirst([e, e], 2) == [sent, sent] by { TwoMarked(e); }
    var w := Step(Step(two, OpTrigger, 10), OpMarkSent, 10);
    assert w.s == State([sent, sent], 0, 0, 2, 0, false) && w.read == 0;
    ThirdSaved(w.s, e);
  }

  lemma TwoSaved(a: Saved)
    requires |EntryOf(a).msg| == 3 && !IsIgnored(a)
    ensures var e, two := EntryOf(a), Step(Step(START, Op.OpSave(a), 10), Op.OpSave(a), 10);
            two.s == State([e, e], 0, 0, 2, 0, false) && two.read == 0
  {
    hide EntryOf;
    var e := EntryOf(a);
    EmptyTotal();
    SingleTotal(e);
    assert [] + [e] == [e] && [e] + [e] == [e, e];
    var one := Step(START, Op.OpSave(a), 10);
    assert one.s == State([e], 0, 0, 1, 0, false) && one.read == 0;
  }

  lemma TwoMarked(e: Entry)
    requires !IsSent(e)
    ensures Unsent([e, e]) == 2 && MarkFirst([e, e], 2) == [MarkSent(e), MarkSent(e)]
  {
    hide IsSent, MarkSent;
    assert [e, e][1..] == [e] && [e][1..] == [];
    assert Unsent([e]) == 1 && MarkFirst([e], 1) == [MarkSent(e)];
  }

  lemma ThirdSaved(s: State, e: Entry)
    requires |e.msg| == 3 && |s.entries| == 2 && s == State(s.entries, 0, 0, 2, 0, false)
    requires s.entries[0] == s.entries[1] && Size(s.entries[0]) == 5 && IsSent(s.entries[0])
    ensures Evicted(s, e, 10) == 1 && Save(s, e, 10).cursor == UINT32_LIMIT - 5
  {
    hide IsSent, IsRead;
    SingleTotal(s.entries[0]);
    assert s.entries[..1] == [s.entries[0]];
    assert TotalSize(s.entries) == 10;
    var t := DropOldest(s);
    assert Missing(s, e, 10) == 5;
    assert Free(s, 5) == Free(t, 0) == t;
    assert FreedCount(s.entries, 5) == 1;
  }

  // ---- Saving ----

  lemma {:induction false} LostOfUnsent(entries: seq<Entry>, r: nat)
    requires forall i :: 0 <= i < |entries| ==> (IsRead(entries[i]) <==> i < r) && (r <= i ==> !IsSent(entries[i]))
    ensures Lost(entries) == Remaining(|entries|, r)
    decreases |entries|
  {
    hide IsRead, IsSent;
    if entries != [] {
      LostOfUnsent(entries[1..], if r == 0 then 0 else r - 1);
    }
  }

  lemma SaveFits(s: State, e: Entry, capacity: nat)
    requires TotalSize(s.entries) <= capacity < UINT32_LIMIT && s.cursor < UINT32_LIMIT && s.dropped < UINT32_LIMIT
    ensures TotalSize(Save(s, e, capacity).entries) <= capacity
    ensures Save(s, e, capacity).entries ==
            if IsRejected(s, e, capacity) then s.entries else s.entries[Evicted(s, e, capacity)..] + [e]
  {
    hide TotalSize, FreedCount, Credit, Lost, Free;
    if !IsRejected(s, e, capacity) {
      var k, missing := Evicted(s, e, capacity), Missing(s, e, capacity);
      FreeIs(s, missing);
      if missing > 0 {
        FreedIsLeast(s.entries, missing);
      } else {
        NothingFreed(s.entries, missing);
      }
      TotalSizeSplits(s.entries, k);
      PushTotal(s.entries[k..], e);
      EmptyTotal();
      assert k == 0 ==> s.entries[..k] == [];
    }
  }

  lemma NothingFreed(entries: seq<Entry>, needed: int)
    requires needed <= 0
    ensures FreedCount(entries, needed) == 0
  {
  }

  lemma SaveKeepsNewest(w: World, a: Saved, capacity: nat)
    requires Newest(w)
    requires Save(w.s, EntryOf(a), capacity).entries ==
             if IsRejected(w.s, EntryOf(a), capacity) then w.s.entries else w.s.entries[Evicted(w.s, EntryOf(a), capacity)..] + [EntryOf(a)]
    ensures Newest(StepSave(w, a, capacity))
  {
    hide EntryOf, IsIgnored, SameLog, Evicted, IsRejected, Save;
    var e := EntryOf(a);
    SameAsItself(e);
  }

  lemma SaveKeepsInOrder(w: World, a: Saved, capacity: nat)
    requires InOrder(w) && w.read <= |w.s.entries| && Newest(w)
    ensures InOrder(StepSave(w, a, capacity))
  {
    hide EntryOf, IsIgnored, Newest, Evicted, LineOf, IsRejected, Save;
    var e := EntryOf(a);
    var t := StepSave(w, a, capacity);
    assert w.evicted + w.read <= t.evicted + t.read <= |t.history| by {
      assert |w.history| == w.evicted + |w.s.entries| by { LengthOfHistory(w); }
    }
  }

  lemma LengthOfHistory(w: World)
    requires Newest(w)
    ensures |w.history| == w.evicted + |w.s.entries|
  {
  }

  lemma SaveKeepsCounted(w: World, a: Saved, capacity: nat)
    requires CursorAt(w.s, w.read) && Counted(w) && TotalSize(w.s.entries) <= capacity < UINT32_LIMIT
    requires forall i :: w.read <= i < Evicted(w.s, EntryOf(a), capacity) ==> !IsSent(w.s.entries[i])
    ensures Counted(StepSave(w, a, capacity))
  {
    hide EntryOf, IsIgnored, IsRead, IsSent, TotalSize, Lost, Credit, Free, FreedCount, Missing, Size;
    var e := EntryOf(a);
    PlusTwice(w.rejected + w.lost, 1, 0);
    PlusTwice(0, w.rejected + w.lost, 1);
    PlusTwice(0, |w.history|, 1);
    if !IsRejected(w.s, e, capacity) {
      var k := Evicted(w.s, e, capacity);
      TotalSizeSplits(w.s.entries, w.read);
      FreeIs(w.s, Missing(w.s, e, capacity));
      LostOfUnsent(w.s.entries[..k], w.read);
      PlusTwice(0, w.rejected + w.lost, Lost(w.s.entries[..k]));
    }
  }

  lemma NothingEvicted(s: State, e: Entry, capacity: nat)
    requires s.collecting
    ensures Evicted(s, e, capacity) == 0
  {
    hide Missing;
  }

  lemma SaveKeepsMarks(w: World, a: Saved, capacity: nat)
    requires Newest(w) && Marked(w) && Frozen(w) && UploadedOnce(w) && !IsSent(EntryOf(a))
    requires Save(w.s, EntryOf(a), capacity).entries ==
             if IsRejected(w.s, EntryOf(a), capacity) then w.s.entries else w.s.entries[Evicted(w.s, EntryOf(a), capacity)..] + [EntryOf(a)]
    requires Save(w.s, EntryOf(a), capacity).collecting == w.s.collecting
    ensures var t := StepSave(w, a, capacity);
            Marked(t) && Frozen(t) && UploadedOnce(t)
  {
    hide EntryOf, IsIgnored, SameLog, Evicted, IsRejected, Save, IsSent;
    var e := EntryOf(a);
    if w.s.collecting {
      NothingEvicted(w.s, e, capacity);
    }
  }

  /** Sent marks are on a prefix, so it is enough to look at the first unread entry. */
  lemma FirstDecides(w: World, k: nat)
    requires Marked(w) && k <= |w.s.entries|
    ensures (forall i :: w.read <= i < k ==> !IsSent(w.s.entries[i])) <==>
            !(w.read < k && IsSent(w.s.entries[w.read]))
  {
    hide IsSent;
  }

  lemma SaveKeepsSound(w: World, a: Saved, capacity: nat)
    requires Sound(w, capacity) && capacity < UINT32_LIMIT
    ensures Sound(StepSave(w, a, capacity), capacity) <==> !Displaces(w, Op.OpSave(a), capacity)
  {
    hide EntryOf, IsRead, IsSent, TotalSize, Save, IsRejected, Evicted, Newest, InOrder, CursorAt, Marked, Frozen, UploadedOnce;
    var e := EntryOf(a);
    EntryHasNoMarks(a);
    CursorIsWord(w.s, w.read);
    SaveKeepsCursor(w.s, w.read, e, capacity);
    FirstDecides(w, Evicted(w.s, e, capacity));
    if IsRejected(w.s, e, capacity) {
      RejectedKeepsCursor(w.s, w.read, e, capacity);
    }
    if !IsIgnored(a) && !Displaces(w, Op.OpSave(a), capacity) {
      SaveFits(w.s, e, capacity);
      SaveKeepsNewest(w, a, capacity);
      SaveKeepsInOrder(w, a, capacity);
      SaveKeepsCounted(w, a, capacity);
      SaveKeepsCollecting(w.s, e, capacity);
      SaveKeepsMarks(w, a, capacity);
    }
  }

  lemma SaveKeepsCollecting(s: State, e: Entry, capacity: nat)
    requires s.cursor < UINT32_LIMIT && s.dropped < UINT32_LIMIT
    ensures Save(s, e, capacity).collecting == s.collecting
  {
    hide TotalSize, FreedCount, Credit, Lost, Free;
    FreeIs(s, Missing(s, e, capacity));
  }

  lemma RejectedKeepsCursor(s: State, r: nat, e: Entry, capacity: nat)
    requires IsRejected(s, e, capacity) && CursorAt(s, r)
    ensures CursorAt(Save(s, e, capacity), r) && Evicted(s, e, capacity) == 0
  {
  }

  lemma CursorIsWord(s: State, r: nat)
    requires CursorAt(s, r)
    ensures r <= |s.entries| && s.cursor <= TotalSize(s.entries)
  {
    hide TotalSize;
    TotalSizeSplits(s.entries, r);
  }

  // ---- Reading ----

  lemma MarkedTotal(entries: seq<Entry>, r: nat)
    requires r < |entries|
    ensures TotalSize(entries[r := MarkRead(entries[r])]) == TotalSize(entries)
    ensures TotalSize(entries[r := MarkRead(entries[r])][..r + 1]) == TotalSize(entries[..r]) + Size(entries[r])
  {
    hide TotalSize;
    var marked := entries[r := MarkRead(entries[r])];
    MarkedSlices(entries, r, marked[r]);
    TotalSizeSplits(entries, r + 1);
    TotalSizeSplits(marked, r + 1);
    PushTotal(entries[..r], entries[r]);
    PushTotal(entries[..r], marked[r]);
  }

  lemma ReadKeepsSound(w: World, capacity: nat)
    requires Sound(w, capacity) && !HasNotice(w.s) && w.read < |w.s.entries|
    ensures Sound(StepRead(w), capacity)
  {
    hide IsRead, IsSent, TotalSize, SameLog, LineOf, MarkRead, Size, EntryOf, IsRecord;
    var e := w.s.entries[w.read];
    MarkedTotal(w.s.entries, w.read);
    MarksAreSeparate(e);
    ReadsAsSaved(w.history[w.evicted + w.read], e);
    SameLogTwice(EntryOf(w.history[w.evicted + w.read]), e, MarkRead(e));
    assert LineOf(e).Line? by { LineIsLine(e); }
  }

  lemma LineIsLine(e: Entry)
    ensures LineOf(e).Line?
  {
  }

  /** The next log that is read is that of the entry at the cursor, as it was saved. */
  lemma SavedIsRead(s: State, r: nat, a: Saved)
    requires CursorAt(s, r) && r < |s.entries| && SameLog(EntryOf(a), s.entries[r])
    requires s.reported == s.dropped || s.dropped == 0
    ensures Read(s, r).1.Some? && IsRecord(Read(s, r).1.value, a)
  {
    hide CursorAt, IsRecord, EntryOf, LineOf, SameLog, IsBehind, MarkRead;
    assert s.cursor == TotalSize(s.entries[..r]) by { Cursor(s, r); }
    BehindWhenAllRead(s, r);
    ReadsAsSaved(a, s.entries[r]);
  }

  /** A log that is saved when all others have been read, and that is not refused, is read next. */
  lemma SaveThenRead(s: State, a: Saved, capacity: nat)
    requires CursorAt(s, |s.entries|) && TotalSize(s.entries) <= capacity < UINT32_LIMIT
    requires s.reported == s.dropped < UINT32_LIMIT && !IsRejected(s, EntryOf(a), capacity)
    ensures var t := Save(s, EntryOf(a), capacity);
            var r := |t.entries| - 1;
            r >= 0 && CursorAt(t, r) && Read(t, r).1.Some? && IsRecord(Read(t, r).1.value, a)
  {
    hide EntryOf, IsRecord, IsRead, IsSent, TotalSize, Save, IsRejected, Evicted, Read;
    var e := EntryOf(a);
    EntryHasNoMarks(a);
    CursorIsWord(s, |s.entries|);
    SaveKeepsCursor(s, |s.entries|, e, capacity);
    SaveFits(s, e, capacity);
    NothingIsLost(s, e, capacity);
    SameAsItself(e);
    var t := Save(s, e, capacity);
    SavedIsRead(t, |t.entries| - 1, a);
  }

  lemma NothingIsLost(s: State, e: Entry, capacity: nat)
    requires CursorAt(s, |s.entries|) && !IsRejected(s, e, capacity) && TotalSize(s.entries) < UINT32_LIMIT
    requires s.reported == s.dropped < UINT32_LIMIT
    ensures Save(s, e, capacity).reported == Save(s, e, capacity).dropped
  {
    hide TotalSize, IsRead, IsSent, FreedCount, Credit, Lost, Free, Missing;
    CursorIsWord(s, |s.entries|);
    FreeIs(s, Missing(s, e, capacity));
    CreditOfRead(s.entries[..Evicted(s, e, capacity)]);
  }

  // ---- Uploading ----

  lemma {:induction false} UnsentBehind(entries: seq<Entry>, p: nat)
    requires p <= |entries| && forall i :: 0 <= i < |entries| ==> (IsSent(entries[i]) <==> i < p)
    ensures Unsent(entries) == |entries| - p
    decreases |entries|
  {
    hide IsSent;
    if entries != [] {
      UnsentBehind(entries[1..], if p == 0 then 0 else p - 1);
    }
  }

  lemma TriggerKeepsSound(w: World, capacity: nat)
    requires Sound(w, capacity)
    ensures Sound(StepTrigger(w), capacity)
  {
    hide IsRead, IsSent, TotalSize, SameLog, LineOf, Unsent;
    UnsentBehind(w.s.entries, FirstUnsent(w) - w.evicted);
  }

  lemma {:induction false} SameSizes(a: seq<Entry>, b: seq<Entry>)
    requires |a| == |b| && forall i :: 0 <= i < |a| ==> Size(a[i]) == Size(b[i])
    ensures TotalSize(a) == TotalSize(b)
    decreases |a|
  {
    hide Size;
    if a != [] {
      SameSizes(a[..|a| - 1], b[..|b| - 1]);
    }
  }

  lemma {:induction false} AllAreMarked(entries: seq<Entry>, n: int, i: nat)
    requires i < |entries| && n <= 0
    ensures MarkFirst(entries, n)[i] == MarkSent(entries[i])
    decreases |entries|
  {
    hide IsSent, MarkSent;
    MarkSentTwice(entries[0]);
    if i > 0 {
      AllAreMarked(entries[1..], n, i - 1);
      AllAreMarked(entries[1..], n - 1, i - 1);
    }
  }

  /** Which entries get the mark. */
  lemma MarkIs(w: World, i: nat)
    requires Newest(w) && Marked(w) && Frozen(w) && i < |w.s.entries|
    ensures var m := if w.s.collecting then w.frozen - w.evicted else |w.s.entries|;
            MarkFirst(w.s.entries, w.numLogs)[i] == if i < m then MarkSent(w.s.entries[i]) else w.s.entries[i]
  {
    hide IsSent, MarkSent, MarkFirst, SameLog, Unsent;
    if w.s.collecting {
      var m := w.frozen - w.evicted;
      UnsentBehind(w.s.entries[..m], FirstUnsent(w) - w.evicted);
      MarkFirstIs(w.s.entries, m, w.numLogs, i);
    } else {
      AllAreMarked(w.s.entries, w.numLogs, i);
    }
  }

  lemma MarkSentKeepsEntries(w: World)
    requires Newest(w) && Marked(w) && Frozen(w)
    ensures var t := StepMarkSent(w);
            && |t.s.entries| == |w.s.entries|
            && (forall i :: 0 <= i < |t.s.entries| ==>
                  && SameLog(w.s.entries[i], t.s.entries[i])
                  && (IsRead(t.s.entries[i]) <==> IsRead(w.s.entries[i]))
                  && (IsSent(t.s.entries[i]) <==> w.evicted + i < t.marked))
            && (forall r :: 0 <= r <= |t.s.entries| ==> TotalSize(t.s.entries[..r]) == TotalSize(w.s.entries[..r]))
            && TotalSize(t.s.entries) == TotalSize(w.s.entries)
  {
    hide IsSent, MarkSent, MarkFirst, SameLog, IsRead, Newest, TotalSize;
    var t := StepMarkSent(w);
    LengthOfHistory(w);
    forall i | 0 <= i < |t.s.entries|
      ensures SameLog(w.s.entries[i], t.s.entries[i]) && Size(w.s.entries[i]) == Size(t.s.entries[i])
      ensures IsRead(t.s.entries[i]) <==> IsRead(w.s.entries[i])
      ensures IsSent(t.s.entries[i]) <==> w.evicted + i < t.marked
    {
      MarkIs(w, i);
      MarksAreSeparate(w.s.entries[i]);
      SameAsItself(w.s.entries[i]);
      SameMessage(w.s.entries[i], t.s.entries[i]);
    }
    forall r | 0 <= r <= |t.s.entries|
      ensures TotalSize(t.s.entries[..r]) == TotalSize(w.s.entries[..r])
    {
      SameSizes(t.s.entries[..r], w.s.entries[..r]);
    }
    SameSizes(t.s.entries, w.s.entries);
  }

  lemma MarkSentKeepsSound(w: World, capacity: nat)
    requires Sound(w, capacity)
    ensures Sound(StepMarkSent(w), capacity)
  {
    hide IsRead, IsSent, TotalSize, SameLog, LineOf, MarkFirst;
    var t := StepMarkSent(w);
    MarkSentKeepsEntries(w);
    forall i | 0 <= i < |t.s.entries|
      ensures SameLog(EntryOf(t.history[t.evicted + i]), t.s.entries[i])
    {
      SameLogTwice(EntryOf(w.history[w.evicted + i]), w.s.entries[i], t.s.entries[i]);
    }
  }

  /** Every call keeps all this, except a save that drops the oldest unread log although it was uploaded. */
  lemma StepKeepsSound(w: World, op: Op, capacity: nat)
    requires Sound(w, capacity) && capacity < UINT32_LIMIT
    ensures Sound(Step(w, op, capacity), capacity) <==> !Displaces(w, op, capacity)
  {
    hide IsRead, IsSent, TotalSize, StepSave, SameLog, LineOf, StepTrigger, StepMarkSent, Displaces;
    NoSaveNoDisplacement(w, op, capacity);
    match op
    case OpSave(a) => SaveKeepsSound(w, a, capacity);
    case OpRead =>
      if !HasNotice(w.s) && w.read < |w.s.entries| {
        ReadKeepsSound(w, capacity);
      }
    case OpTrigger => TriggerKeepsSound(w, capacity);
    case OpMarkSent => MarkSentKeepsSound(w, capacity);
    case OpReset =>
  }

  lemma NoSaveNoDisplacement(w: World, op: Op, capacity: nat)
    ensures Displaces(w, op, capacity) ==> op.OpSave?
  {
  }

  // ---- Runs ----

  function Run(w: World, ops: seq<Op>, capacity: nat): World
    requires Sound(w, capacity) && capacity < UINT32_LIMIT
    requires NeverDisplaces(w, ops, capacity)
    decreases |ops|
  {
    if ops == [] then w
    else
      StepKeepsSound(w, ops[0], capacity);
      Run(Step(w, ops[0], capacity), ops[1..], capacity)
  }

  /** No call drops the oldest unread log although it was uploaded. */
  ghost predicate NeverDisplaces(w: World, ops: seq<Op>, capacity: nat)
    requires Sound(w, capacity) && capacity < UINT32_LIMIT
    decreases |ops|
  {
    ops != [] ==>
      && !Displaces(w, ops[0], capacity)
      && (StepKeepsSound(w, ops[0], capacity);
          NeverDisplaces(Step(w, ops[0], capacity), ops[1..], capacity))
  }

  ghost predicate AlwaysSound(w: World, ops: seq<Op>, capacity: nat)
    decreases |ops|
  {
    Sound(w, capacity) && (ops != [] ==> AlwaysSound(Step(w, ops[0], capacity), ops[1..], capacity))
  }

  /** The buffer, the cursor and the counters stay right over a run exactly when no call drops the oldest
    * unread log although it was uploaded. */
  lemma {:induction false} AlwaysSoundUnlessDisplaced(w: World, ops: seq<Op>, capacity: nat)
    requires Sound(w, capacity) && capacity < UINT32_LIMIT
    ensures AlwaysSound(w, ops, capacity) <==> NeverDisplaces(w, ops, capacity)
    decreases |ops|
  {
    hide Step, Sound, Displaces;
    if ops != [] {
      SoundIsReadable(w, capacity);
      StepKeepsSound(w, ops[0], capacity);
      var t := Step(w, ops[0], capacity);
      if Sound(t, capacity) {
        AlwaysSoundUnlessDisplaced(t, ops[1..], capacity);
      }
    }
  }

  lemma SoundAccounts(w: World, capacity: nat)
    requires Sound(w, capacity)
    ensures |w.history| == |w.out| + w.lost + (|w.s.entries| - w.read)
    ensures w.s.dropped == (w.rejected + w.lost) % UINT32_LIMIT
  {
    hide TotalSize, InOrder, Marked, Frozen, UploadedOnce;
  }

  lemma NothingIsInOrder(w: World)
    requires w.out == []
    ensures InOrder(w)
  {
  }

  lemma StartIsSound(capacity: nat)
    ensures Sound(START, capacity)
  {
    hide SameLog, IsRead, IsSent, LineOf, TotalSize, InOrder;
    EmptyTotal();
    assert START.s.entries[..0] == [];
    NothingIsInOrder(START);
  }

  /** Over any such run, the buffer holds the newest recorded logs, the cursor is behind those that were
    * read, logs come out unchanged, in order and at most once, each recorded log was read, or was dropped
    * unread and counted as such, or is still to be read, and no log is uploaded twice. */
  lemma {:induction false} RunIsSound(ops: seq<Op>, capacity: nat)
    requires capacity < UINT32_LIMIT
    ensures Sound(START, capacity)
    ensures NeverDisplaces(START, ops, capacity) ==>
              var w := Run(START, ops, capacity);
              && Sound(w, capacity)
              && |w.history| == |w.out| + w.lost + (|w.s.entries| - w.read)
              && w.s.dropped == (w.rejected + w.lost) % UINT32_LIMIT
  {
    hide Run, NeverDisplaces, Sound;
    StartIsSound(capacity);
    if NeverDisplaces(START, ops, capacity) {
      RunFrom(START, ops, capacity);
      SoundAccounts(Run(START, ops, capacity), capacity);
    }
  }

  lemma SoundIsReadable(w: World, capacity: nat)
    requires Sound(w, capacity)
    ensures w.read <= |w.s.entries|
  {
  }

  lemma {:induction false} RunFrom(w: World, ops: seq<Op>, capacity: nat)
    requires Sound(w, capacity) && capacity < UINT32_LIMIT
    requires NeverDisplaces(w, ops, capacity)
    ensures Sound(Run(w, ops, capacity), capacity)
    decreases |ops|
  {
    hide Step, Sound, Displaces;
    if ops != [] {
      SoundIsReadable(w, capacity);
      StepKeepsSound(w, ops[0], capacity);
      RunFrom(Step(w, ops[0], capacity), ops[1..], capacity);
    }
  }

  // ---- Once the oldest unread log was dropped although it was uploaded ----

  function SizeOfSaved(ops: seq<Op>): nat {
    if ops == [] then 0 else SizeOf(ops[0]) + SizeOfSaved(ops[1..])
  }

  function SizeOf(op: Op): nat {
    if op.OpSave? then Size(EntryOf(op.a)) else 0
  }

  /** The cursor is so far behind the end of the buffer that `more` bytes of new logs do not bring it back. */
  ghost predicate Astray(w: World, more: nat, capacity: nat) {
    && w.read <= |w.s.entries| && TotalSize(w.s.entries) <= capacity && w.s.dropped < UINT32_LIMIT
    && capacity + TotalSize(w.s.entries) + more <= w.s.cursor < UINT32_LIMIT - ENTRY_HEADER
  }

  lemma {:induction false} CreditIsPart(entries: seq<Entry>)
    ensures Credit(entries) <= TotalSize(entries)
    decreases |entries|
  {
    hide IsRead, IsSent, Size;
    if entries != [] {
      CreditIsPart(entries[1..]);
      FrontTotal(entries, |entries|);
      assert entries[..|entries|] == entries && entries[1..][..|entries| - 1] == entries[1..];
    }
  }

  lemma SaveStaysAstray(w: World, a: Saved, more: nat, capacity: nat)
    requires Astray(w, Size(EntryOf(a)) + more, capacity) && capacity < UINT32_LIMIT
    ensures Astray(StepSave(w, a, capacity), more, capacity)
  {
    hide TotalSize, Credit, Lost, FreedCount, Free, Size, EntryOf, IsIgnored;
    var e := EntryOf(a);
    SaveFits(w.s, e, capacity);
    if !IsRejected(w.s, e, capacity) {
      var k := Evicted(w.s, e, capacity);
      FreeIs(w.s, Missing(w.s, e, capacity));
      TotalSizeSplits(w.s.entries, k);
      PushTotal(w.s.entries[k..], e);
      CreditIsPart(w.s.entries[..k]);
      Difference(Credit(w.s.entries[..k]), w.s.cursor - Credit(w.s.entries[..k]));
    }
  }

  lemma {:induction false} MarkFirstKeepsSize(entries: seq<Entry>, n: int, i: nat)
    requires i < |entries|
    ensures Size(MarkFirst(entries, n)[i]) == Size(entries[i])
    decreases |entries|
  {
    hide IsSent;
    if i > 0 {
      MarkFirstKeepsSize(entries[1..], n, i - 1);
      MarkFirstKeepsSize(entries[1..], n - 1, i - 1);
    }
  }

  lemma StaysAstray(w: World, op: Op, more: nat, capacity: nat)
    requires Astray(w, SizeOf(op) + more, capacity) && capacity < UINT32_LIMIT
    ensures Astray(Step(w, op, capacity), more, capacity) && Step(w, op, capacity).out == w.out
  {
    hide TotalSize, Size, Save, Evicted, IsRejected, MarkFirst, Unsent, LineOf;
    match op
    case OpSave(a) => SaveStaysAstray(w, a, more, capacity);
    case OpRead =>
    case OpTrigger =>
    case OpMarkSent =>
      var marked := MarkFirst(w.s.entries, w.numLogs);
      forall i | 0 <= i < |marked|
        ensures Size(marked[i]) == Size(w.s.entries[i])
      {
        MarkFirstKeepsSize(w.s.entries, w.numLogs, i);
      }
      SameSizes(marked, w.s.entries);
    case OpReset =>
  }

  function RunAstray(w: World, ops: seq<Op>, capacity: nat): World
    requires Astray(w, SizeOfSaved(ops), capacity) && capacity < UINT32_LIMIT
    decreases |ops|
  {
    if ops == [] then w
    else
      StaysAstray(w, ops[0], SizeOfSaved(ops[1..]), capacity);
      RunAstray(Step(w, ops[0], capacity), ops[1..], capacity)
  }

  lemma {:induction false} NothingIsRead(w: World, ops: seq<Op>, capacity: nat)
    requires Astray(w, SizeOfSaved(ops), capacity) && capacity < UINT32_LIMIT
    ensures RunAstray(w, ops, capacity).out == w.out
    decreases |ops|
  {
    hide Step, TotalSize, SizeOf;
    if ops != [] {
      StaysAstray(w, ops[0], SizeOfSaved(ops[1..]), capacity);
      NothingIsRead(Step(w, ops[0], capacity), ops[1..], capacity);
    }
  }

  /** Where the cursor is then. */
  lemma DisplacedCursor(s: State, r: nat, k: nat)
    requires CursorAt(s, r) && r < k <= |s.entries| && IsSent(s.entries[r]) && s.entries[r].msg != []
    requires TotalSize(s.entries) < UINT32_LIMIT
    ensures var cursor := Minus(s.cursor, Credit(s.entries[..k]));
            UINT32_LIMIT - TotalSize(s.entries) <= cursor < UINT32_LIMIT - ENTRY_HEADER
  {
    hide TotalSize, IsRead, IsSent, Minus;
    var entries := s.entries;
    Slices(entries, k, r);
    TotalSizeSplits(entries, k);
    TotalSizeSplits(entries[..k], r);
    CreditSplits(entries[..k], r);
    CreditOfRead(entries[..r]);
    var mid := entries[r..k];
    CreditIsPart(mid);
    assert Credit(mid) >= Size(entries[r]) by {
      assert mid[0] == entries[r];
    }
    WrapsBelowZero(TotalSize(entries[..r]), Credit(mid));
  }

  lemma WrapsBelowZero(a: nat, c: nat)
    requires 0 < c < UINT32_LIMIT
    ensures Minus(a, a + c) == UINT32_LIMIT - c
  {
  }

  /** From then on no log is read, whatever is saved and uploaded, until gigabytes of logs later the cursor
    * may come round to the buffer again. The log that was dropped is taken to have at least one byte. */
  lemma NothingIsReadAgain(w: World, a: Saved, ops: seq<Op>, capacity: nat)
    requires Sound(w, capacity) && Displaces(w, Op.OpSave(a), capacity) && w.s.entries[w.read].msg != []
    requires 3 * capacity + SizeOfSaved(ops) < UINT32_LIMIT
    ensures var t := Step(w, Op.OpSave(a), capacity);
            Astray(t, SizeOfSaved(ops), capacity) && RunAstray(t, ops, capacity).out == w.out
  {
    hide EntryOf, IsIgnored, TotalSize, Credit, Lost, Free, FreedCount, IsSent, IsRead, Newest, InOrder, Marked, Frozen, UploadedOnce, Minus, Missing;
    var e := EntryOf(a);
    var k := Evicted(w.s, e, capacity);
    CursorIsWord(w.s, w.read);
    SaveFits(w.s, e, capacity);
    FreeIs(w.s, Missing(w.s, e, capacity));
    DisplacedCursor(w.s, w.read, k);
    NothingIsRead(Step(w, Op.OpSave(a), capacity), ops, capacity);
  }

  // ---- Reading everything ----

  /** All that comes out when logs are read until there is none left. */
  function Export(s: State, r: nat): seq<Log>
    requires r <= |s.entries|
    decreases |s.entries| - r, if HasNotice(s) then 1 else 0
  {
    var (t, log) := Read(s, r);
    if log.None? then [] else [log.value] + Export(t, if HasNotice(s) then r else r + 1)
  }

  function Lines(entries: seq<Entry>): seq<Log> {
    seq(|entries|, i requires 0 <= i < |entries| => LineOf(entries[i]))
  }

  lemma {:induction false} ExportIsEverything(s: State, r: nat)
    requires CursorAt(s, r)
    ensures Export(s, r) == (if HasNotice(s) then [Notice(s.dropped)] else []) + Lines(s.entries[r..])
    decreases |s.entries| - r, if HasNotice(s) then 1 else 0
  {
    hide IsRead, LineOf, TotalSize, MarkRead, Size;
    BehindWhenAllRead(s, r);
    var (t, log) := Read(s, r);
    if HasNotice(s) {
      ExportIsEverything(t, r);
    } else if r < |s.entries| {
      MarkedTotal(s.entries, r);
      MarksAreSeparate(s.entries[r]);
      ExportIsEverything(t, r + 1);
      assert t.entries[r + 1..] == s.entries[r + 1..];
      assert Lines(s.entries[r..]) == [LineOf(s.entries[r])] + Lines(s.entries[r + 1..]);
    }
  }

  /** The logs that come out then are those that were saved and not read yet. */
  lemma ExportedAsSaved(w: World, capacity: nat)
    requires Sound(w, capacity)
    ensures var logs, next := Export(w.s, w.read), w.evicted + w.read;
            var skip := if w.s.reported != w.s.dropped && w.s.dropped > 0 then 1 else 0;
            && |logs| == skip + (|w.history| - next)
            && (skip == 1 ==> logs[0] == Notice(w.s.dropped))
            && forall i :: next <= i < |w.history| ==> IsRecord(logs[skip + (i - next)], w.history[i])
  {
    hide LineOf, IsRead, IsSent, TotalSize, SameLog, IsRecord, EntryOf, Export;
    ExportIsEverything(w.s, w.read);
    var next := w.evicted + w.read;
    var lines := Lines(w.s.entries[w.read..]);
    forall i | next <= i < |w.history|
      ensures IsRecord(lines[i - next], w.history[i])
    {
      ReadsAsSaved(w.history[i], w.s.entries[i - w.evicted]);
    }
  }

  // ---- What is uploaded ----

  /** The elements that are meant for a saved log. */
  function ElementsFor(a: Saved): seq<Item> {
    var line := if |a.log| <= 128 then a.log else a.log[..128];
    [Integer(if a.timestamp.Some? then a.timestamp.value else 0), Integer(a.level),
     if a.compact then ByteString(line) else TextString(line)]
  }

  lemma ElementsAsSaved(a: Saved, e: Entry)
    requires SameLog(EntryOf(a), e)
    ensures Proper(e) && Elements(e, e.msg) == ElementsFor(a)
  {
    hide Word, FromWord, BuildHeader;
    HeaderHoldsFields(a.level, a.compact, a.timestamp.Some?, EntryOf(a).msg);
    MessageOf(a.level, a.compact, a.timestamp, a.log);
    assert a.log[..|a.log|] == a.log;
    var line := a.log[..Min(|a.log|, MAX_LINE)];
    if a.timestamp.Some? {
      WordRoundTrip(a.timestamp.value);
      assert e.msg[..4] == Word(a.timestamp.value) && e.msg[4..] == line;
      assert FromWord(e.msg[..4]) == a.timestamp.value;
    } else {
      assert e.msg == line;
    }
  }

  lemma ThreeAt<T>(head: seq<T>, tail: seq<T>, j: nat)
    requires |head| == 3 && 3 * j <= |tail|
    ensures (head + tail)[3 * j..3 * j + 3] == if j == 0 then head else tail[3 * (j - 1)..3 * (j - 1) + 3]
  {
  }

  lemma ProperIsTimed(e: Entry)
    requires Proper(e)
    ensures IsTimestamped(e) ==> |e.msg| >= 4
  {
  }

  lemma IntendedFirst(entries: seq<Entry>, n: int)
    requires entries != [] && forall i :: 0 <= i < |entries| ==> Proper(entries[i])
    ensures IsTimestamped(entries[0]) ==> |entries[0].msg| >= 4
    ensures Intended(entries, n) ==
            if IsSent(entries[0]) then Intended(entries[1..], n)
            else Elements(entries[0], entries[0].msg) + if n == 1 then [] else Intended(entries[1..], n - 1)
  {
    hide Elements, IsSent, Proper;
    ProperIsTimed(entries[0]);
  }

  lemma {:induction false} IntendedAt(entries: seq<Entry>, n: nat, p: nat, j: nat)
    requires forall i :: 0 <= i < |entries| ==> Proper(entries[i]) && (IsSent(entries[i]) <==> i < p)
    requires j < n && p + n <= |entries|
    ensures IsTimestamped(entries[p + j]) ==> |entries[p + j].msg| >= 4
    ensures 3 * j + 3 <= |Intended(entries, n)|
    ensures Intended(entries, n)[3 * j..3 * j + 3] == Elements(entries[p + j], entries[p + j].msg)
    decreases |entries|
  {
    hide Elements, IsSent, Proper, Intended, IsTimestamped;
    var rest := entries[1..];
    IntendedFirst(entries, n);
    if p > 0 {
      IntendedAt(rest, n, p - 1, j);
    } else {
      var tail := if n == 1 then [] else Intended(rest, n - 1);
      if j > 0 {
        IntendedAt(rest, n - 1, 0, j - 1);
      }
      ThreeAt(Elements(entries[0], entries[0].msg), tail, j);
    }
  }

  /** The message that is uploaded decodes to the metadata, the key 4, and an array of three elements for each
    * log that was saved and not uploaded before, in the order of saving, if and only if all these are intact. */
  lemma UploadedAsHistory(w: World, capacity: nat, metadata: seq<Item>, ring: Ring)
    requires Sound(w, capacity) && w.s.collecting && AllEncodable(metadata)
    requires 3 * w.numLogs < UINT32_LIMIT && ring.start < ring.capacity && TotalSize(w.s.entries) <= ring.capacity
    ensures forall i :: 0 <= i < |w.s.entries| ==> Proper(w.s.entries[i])
    ensures var n, items := w.numLogs, Intended(w.s.entries, w.numLogs);
            && FirstUnsent(w) + n == w.frozen <= |w.history| && |items| == 3 * n
            && (forall j :: 0 <= j < n ==> items[3 * j..3 * j + 3] == ElementsFor(w.history[FirstUnsent(w) + j]))
            && (DecodeAll(Message(metadata, w.s.entries, n, ring)) ==
                  Some(metadata + [Integer(4), ArrayOf(3 * n)] + items) <==>
                AllIntact(w.s.entries, 0, n, ring))
  {
    hide TotalSize, SameLog, EntryOf, IsSent, IsRead, CursorAt, InOrder, Counted, UploadedOnce, Intended, Unsent,
         AllEncodable, DecodeAll, Message, AllIntact, Elements, ElementsFor;
    forall i | 0 <= i < |w.s.entries|
      ensures Proper(w.s.entries[i]) && Elements(w.s.entries[i], w.s.entries[i].msg) == ElementsFor(w.history[w.evicted + i])
    {
      ElementsAsSaved(w.history[w.evicted + i], w.s.entries[i]);
    }
    var p := FirstUnsent(w) - w.evicted;
    UnsentBehind(w.s.entries, p);
    MessageDecodes(metadata, w.s.entries, w.numLogs, ring);
    forall j | 0 <= j < w.numLogs
      ensures 3 * j + 3 <= |Intended(w.s.entries, w.numLogs)|
      ensures Intended(w.s.entries, w.numLogs)[3 * j..3 * j + 3] == ElementsFor(w.history[FirstUnsent(w) + j])
    {
      IntendedAt(w.s.entries, w.numLogs, p, j);
    }
  }
}
