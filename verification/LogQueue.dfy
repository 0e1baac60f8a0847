/** The log buffer as a queue of entries that drops its oldest ones (components/core/src/memfault_log.c). */
module LogQueue {
  import opened Bytes

  const ENTRY_HEADER := 2
  const MAX_LINE := 128

  // ---- Entries ----

  /** An entry: its header byte (0brsxT.tlll) and its message, which begins with the timestamp if any. */
  datatype Entry = Entry(hdr: byte, msg: seq<byte>)

  predicate IsRead(e: Entry) { e.hdr >= 0x80 }
  predicate IsSent(e: Entry) { e.hdr % 0x80 >= 0x40 }
  predicate IsTimestamped(e: Entry) { e.hdr % 0x20 >= 0x10 }
  predicate IsCompact(e: Entry) { e.hdr % 0x10 >= 0x08 }
  function Level(e: Entry): nat { (e.hdr % 0x08) as nat }

  function MarkRead(e: Entry): Entry {
    if IsRead(e) then e else e.(hdr := e.hdr + 0x80)
  }

  function MarkSent(e: Entry): Entry {
    if IsSent(e) then e else e.(hdr := e.hdr + 0x40)
  }

  function BuildHeader(level: nat, compact: bool, timestamped: bool): byte {
    (level % 8 + (if compact then 0x08 else 0) + if timestamped then 0x10 else 0) as byte
  }

  /** Two entries that differ at most in the read and the sent mark. */
  ghost predicate SameLog(a: Entry, b: Entry) {
    && a.msg == b.msg && Level(a) == Level(b)
    && IsCompact(a) == IsCompact(b) && IsTimestamped(a) == IsTimestamped(b)
  }

  lemma AddMultiple(h: nat, k: nat)
    ensures (h + 0x20 * k) % 0x20 == h % 0x20
  {
    var q := h / 0x20;
    assert h + 0x20 * k == 0x20 * (q + k) + h % 0x20;
  }

  lemma Mod8(h: nat)
    ensures h % 0x20 % 0x08 == h % 0x08
  {
  }

  lemma Mod16(h: nat)
    ensures h % 0x20 % 0x10 == h % 0x10
  {
  }

  /** The low five bits are not touched by a mark. */
  lemma LowBits(h: nat, k: nat)
    ensures (h + 0x20 * k) % 0x20 == h % 0x20
    ensures (h + 0x20 * k) % 0x10 == h % 0x10
    ensures (h + 0x20 * k) % 0x08 == h % 0x08
  {
    var t := h + 0x20 * k;
    assert t % 0x20 == h % 0x20 by { AddMultiple(h, k); }
    Mod16(h);
    Mod16(t);
    Mod8(h);
    Mod8(t);
  }

  lemma MarksAreSeparate(e: Entry)
    ensures SameLog(e, MarkRead(e)) && IsRead(MarkRead(e)) && (IsSent(MarkRead(e)) <==> IsSent(e))
    ensures SameLog(e, MarkSent(e)) && IsSent(MarkSent(e)) && (IsRead(MarkSent(e)) <==> IsRead(e))
    ensures MarkRead(e).hdr == (if e.hdr < 0x80 then e.hdr + 0x80 else e.hdr)
    ensures MarkSent(e).hdr == (if e.hdr < 0x40 || 0x80 <= e.hdr < 0xc0 then e.hdr + 0x40 else e.hdr)
  {
    hide IsTimestamped, IsCompact, Level;
    if !IsRead(e) {
      SameFields(e, 0x80);
    }
    if !IsSent(e) {
      SameFields(e, 0x40);
    }
  }

  lemma SameFields(e: Entry, mark: byte)
    requires mark == 0x40 || mark == 0x80
    requires e.hdr as nat + mark as nat < 0x100
    ensures SameLog(e, e.(hdr := e.hdr + mark))
  {
    LowBits(e.hdr as nat, if mark == 0x40 then 2 else 4);
  }

  lemma LowThree(level: nat, k: nat)
    requires level < 8
    ensures (level + 8 * k) % 8 == level
  {
  }

  lemma LowFour(level: nat, k: nat)
    requires level < 8 && k < 4
    ensures (level + 8 * k) % 16 >= 8 <==> k == 1 || k == 3
  {
  }

  lemma HeaderHoldsFields(level: nat, compact: bool, timestamped: bool, msg: seq<byte>)
    requires level < 8
    ensures var e := Entry(BuildHeader(level, compact, timestamped), msg);
            && Level(e) == level && IsCompact(e) == compact && IsTimestamped(e) == timestamped
            && !IsRead(e) && !IsSent(e)
            && e.hdr as nat == level + (if compact then 0x08 else 0) + (if timestamped then 0x10 else 0)
  {
    var k := (if compact then 1 else 0) + if timestamped then 2 else 0;
    assert BuildHeader(level, compact, timestamped) as nat == level + 8 * k;
    LowThree(level, k);
    LowFour(level, k);
  }

  lemma SameAsItself(e: Entry)
    ensures SameLog(e, e)
  {
  }

  lemma SameLogTwice(a: Entry, b: Entry, c: Entry)
    requires SameLog(a, b) && SameLog(b, c)
    ensures SameLog(a, c)
  {
  }

  function Size(e: Entry): nat {
    ENTRY_HEADER + |e.msg|
  }

  function TotalSize(entries: seq<Entry>): nat {
    if entries == [] then 0 else TotalSize(entries[..|entries| - 1]) + Size(entries[|entries| - 1])
  }

  lemma {:induction false} TotalSizeSplits(entries: seq<Entry>, k: nat)
    requires k <= |entries|
    ensures TotalSize(entries) == TotalSize(entries[..k]) + TotalSize(entries[k..])
    decreases |entries|
  {
    hide Size;
    if k == |entries| {
      assert entries[..k] == entries;
    } else {
      var rest := entries[..|entries| - 1];
      TotalSizeSplits(rest, k);
      assert rest[..k] == entries[..k];
      assert entries[k..][..|entries| - k - 1] == rest[k..];
    }
  }

  lemma PushTotal(entries: seq<Entry>, e: Entry)
    ensures TotalSize(entries + [e]) == TotalSize(entries) + Size(e)
  {
    assert (entries + [e])[..|entries|] == entries;
  }

  lemma MarkedSlices(entries: seq<Entry>, r: nat, e: Entry)
    requires r < |entries|
    ensures var marked := entries[r := e];
            && marked[..r] == entries[..r] && marked[r + 1..] == entries[r + 1..]
            && marked[..r + 1] == entries[..r] + [e]
            && entries[..r + 1] == entries[..r] + [entries[r]]
  {
  }

  // ---- The buffer ----

  datatype State = State(
    entries: seq<Entry>,
    /** Offset of the next entry to read. */
    cursor: nat,
    dropped: nat,
    recorded: nat,
    /** The number of dropped messages that was last reported to the reader. */
    reported: nat,
    /** Whether the logs are being uploaded. */
    collecting: bool)

  const EMPTY := State([], 0, 0, 0, 0, false)

  function Minus(a: nat, b: nat): (r: nat)
    ensures r < UINT32_LIMIT
  {
    (a - b) % UINT32_LIMIT
  }

  function DropOldest(s: State): State
    requires s.entries != []
  {
    var e := s.entries[0];
    if IsRead(e) || IsSent(e)
    then s.(entries := s.entries[1..], cursor := Minus(s.cursor, Size(e)))
    else s.(entries := s.entries[1..], dropped := (s.dropped + 1) % UINT32_LIMIT)
  }

  /** Drops entries, the oldest first, until `needed` bytes are free. */
  function Free(s: State, needed: int): State
    decreases |s.entries|
  {
    if needed <= 0 || s.entries == [] then s else Free(DropOldest(s), needed - Size(s.entries[0]))
  }

  function Push(s: State, e: Entry): State {
    s.(entries := s.entries + [e], recorded := (s.recorded + 1) % UINT32_LIMIT)
  }

  /** How many bytes have to be freed for `e`. */
  function Missing(s: State, e: Entry, capacity: nat): int {
    Size(e) + TotalSize(s.entries) - capacity
  }

  predicate IsRejected(s: State, e: Entry, capacity: nat) {
    Missing(s, e, capacity) > 0 && (Size(e) > capacity || s.collecting)
  }

  function Save(s: State, e: Entry, capacity: nat): State {
    if IsRejected(s, e, capacity) then s.(dropped := (s.dropped + 1) % UINT32_LIMIT)
    else Push(Free(s, Missing(s, e, capacity)), e)
  }

  // ---- What is freed ----

  function FreedCount(entries: seq<Entry>, needed: int): (k: nat)
    ensures k <= |entries|
  {
    if needed <= 0 || entries == [] then 0 else 1 + FreedCount(entries[1..], needed - Size(entries[0]))
  }

  /** How many entries saving `e` drops. */
  function Evicted(s: State, e: Entry, capacity: nat): (k: nat)
    ensures k <= |s.entries|
  {
    if IsRejected(s, e, capacity) then 0 else FreedCount(s.entries, Missing(s, e, capacity))
  }

  /** How many bytes saving `e` frees. */
  function Freed(s: State, e: Entry, capacity: nat): nat {
    TotalSize(s.entries[..Evicted(s, e, capacity)])
  }

  /** How far dropping these entries moves the cursor back. */
  function Credit(entries: seq<Entry>): nat {
    if entries == [] then 0
    else (if IsRead(entries[0]) || IsSent(entries[0]) then Size(entries[0]) else 0) + Credit(entries[1..])
  }

  /** How many of these entries count as dropped when they go. */
  function Lost(entries: seq<Entry>): nat {
    if entries == [] then 0 else (if IsRead(entries[0]) || IsSent(entries[0]) then 0 else 1) + Lost(entries[1..])
  }

  lemma MinusTwice(a: nat, b: nat, c: nat)
    ensures Minus(Minus(a, b), c) == Minus(a, b + c)
  {
  }

  lemma ShiftSlices(entries: seq<Entry>, k: nat)
    requires 0 < k <= |entries|
    ensures entries[1..][..k - 1] == entries[..k][1..] && entries[..k][0] == entries[0]
    ensures entries[1..][k - 1..] == entries[k..]
  {
  }

  lemma PlusTwice(a: nat, b: nat, c: nat)
    ensures ((a + b) % UINT32_LIMIT + c) % UINT32_LIMIT == (a + b + c) % UINT32_LIMIT
  {
  }

  /** The buffer without its first `k` entries. */
  function DropFirst(s: State, k: nat): State
    requires k <= |s.entries|
  {
    s.(entries := s.entries[k..], cursor := Minus(s.cursor, Credit(s.entries[..k])),
       dropped := (s.dropped + Lost(s.entries[..k])) % UINT32_LIMIT)
  }

  lemma DropOneMore(s: State, k: nat)
    requires 0 < k <= |s.entries|
    ensures DropFirst(DropOldest(s), k - 1) == DropFirst(s, k)
  {
    hide IsRead, IsSent, Size, Minus;
    var e, rest := s.entries[0], s.entries[1..];
    ShiftSlices(s.entries, k);
    MinusTwice(s.cursor, Size(e), Credit(rest[..k - 1]));
    PlusTwice(s.dropped, 1, Lost(rest[..k - 1]));
  }

  lemma DropNothing(s: State)
    requires s.cursor < UINT32_LIMIT && s.dropped < UINT32_LIMIT
    ensures DropFirst(s, 0) == s
  {
  }

  lemma {:induction false} FreeIs(s: State, needed: int)
    requires s.cursor < UINT32_LIMIT && s.dropped < UINT32_LIMIT
    ensures Free(s, needed) == DropFirst(s, FreedCount(s.entries, needed))
    decreases |s.entries|
  {
    hide DropFirst, Minus, Size;
    if needed <= 0 || s.entries == [] {
      DropNothing(s);
    } else {
      FreeIs(DropOldest(s), needed - Size(s.entries[0]));
      DropOneMore(s, FreedCount(s.entries, needed));
    }
  }

  /** Enough is freed, and not more than enough. */
  lemma {:induction false} FreedIsLeast(entries: seq<Entry>, needed: int)
    requires needed <= TotalSize(entries)
    ensures var k := FreedCount(entries, needed);
            needed <= TotalSize(entries[..k]) && (k > 0 ==> TotalSize(entries[..k - 1]) < needed)
    decreases |entries|
  {
    hide Size, TotalSize;
    var k := FreedCount(entries, needed);
    EmptyTotal();
    if needed <= 0 || entries == [] {
      assert entries[..0] == [];
    } else {
      FrontTotal(entries, |entries|);
      assert entries[..|entries|] == entries && entries[1..][..|entries| - 1] == entries[1..];
      FreedIsLeast(entries[1..], needed - Size(entries[0]));
      FrontTotal(entries, k);
      if k == 1 {
        assert entries[..0] == [];
      } else {
        FrontTotal(entries, k - 1);
      }
    }
  }

  lemma EmptyTotal()
    ensures TotalSize([]) == 0
  {
  }

  lemma FrontTotal(entries: seq<Entry>, k: nat)
    requires 0 < k <= |entries|
    ensures TotalSize(entries[..k]) == Size(entries[0]) + TotalSize(entries[1..][..k - 1])
  {
    hide Size;
    TotalSizeSplits(entries[..k], 1);
    assert entries[..k][..1] == [entries[0]];
    assert entries[..k][1..] == entries[1..][..k - 1];
    SingleTotal(entries[0]);
  }

  lemma SingleTotal(e: Entry)
    ensures TotalSize([e]) == Size(e)
  {
    assert [e][..0] == [];
  }

  // ---- Reading ----

  datatype Log =
    | Notice(count: nat)
    | Line(level: nat, compact: bool, timestamp: Option<seq<byte>>, msg: seq<byte>)

  /** What the reader gets of an entry. */
  function LineOf(e: Entry): Log {
    if IsTimestamped(e) && |e.msg| >= 4 then Line(Level(e), IsCompact(e), Some(e.msg[..4]), e.msg[4..])
    else Line(Level(e), IsCompact(e), None, e.msg)
  }

  /** The first `r` entries have been read, no other one has, and the cursor is behind them. */
  ghost predicate CursorAt(s: State, r: nat) {
    && r <= |s.entries| && s.cursor == TotalSize(s.entries[..r])
    && forall i :: 0 <= i < |s.entries| ==> (IsRead(s.entries[i]) <==> i < r)
  }

  predicate HasNotice(s: State) {
    s.reported != s.dropped && s.dropped > 0
  }

  /** There is no entry at the cursor, because it is at the end of the buffer or further on. */
  predicate IsBehind(s: State) {
    TotalSize(s.entries) < s.cursor + ENTRY_HEADER
  }

  /** A cursor that is right is behind everything when all entries have been read. */
  lemma BehindWhenAllRead(s: State, r: nat)
    requires r <= |s.entries| && s.cursor == TotalSize(s.entries[..r])
    ensures IsBehind(s) <==> r == |s.entries|
  {
    hide TotalSize;
    TotalSizeSplits(s.entries, r);
    if r < |s.entries| {
      FrontTotal(s.entries[r..], |s.entries| - r);
      assert s.entries[r..][..|s.entries| - r] == s.entries[r..];
    } else {
      assert s.entries[..r] == s.entries;
    }
  }

  /** One read when `r` entries have been read. */
  function Read(s: State, r: nat): (State, Option<Log>)
    requires r <= |s.entries|
  {
    var t := s.(reported := s.dropped);
    if HasNotice(s) then (t, Some(Notice(s.dropped)))
    else if r == |s.entries| || IsBehind(s) then (t, None)
    else
      var e := s.entries[r];
      (t.(entries := s.entries[r := MarkRead(e)], cursor := s.cursor + Size(e)), Some(LineOf(e)))
  }
}
