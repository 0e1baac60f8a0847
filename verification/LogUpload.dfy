/** What the log data source uploads (components/core/src/memfault_log_data_source.c). */
module LogUpload {
  import opened Bytes
  import opened CircularBuffer
  import opened LogQueue
  import opened LogStorage
  import opened Cbor

  const EVENT_INFO_KEY := 4
  const ELEMENTS_PER_LOG := 3

  // ---- One log ----

  /** Where the contents of the ring buffer begin, and how many bytes there are places for. */
  datatype Ring = Ring(start: nat, capacity: nat)

  /** The three elements for a message, or for one piece of it. */
  function Elements(e: Entry, piece: seq<byte>): (items: seq<Item>)
    requires IsTimestamped(e) ==> |piece| >= 4
    ensures |items| == ELEMENTS_PER_LOG
  {
    var text := if IsTimestamped(e) then piece[4..] else piece;
    [Integer(if IsTimestamped(e) then FromWord(piece[..4]) else 0), Integer(Level(e)),
     if IsCompact(e) then ByteString(text) else TextString(text)]
  }

  /** The elements for the pieces of a message; it ends at a piece that is too short for a timestamp. */
  function ElementsOfPieces(e: Entry, pieces: seq<seq<byte>>): seq<Item> {
    if pieces == [] || (IsTimestamped(e) && |pieces[0]| < 4) then []
    else Elements(e, pieces[0]) + ElementsOfPieces(e, pieces[1..])
  }

  /** How many bytes from `at` on lie in one piece in the storage. */
  function InOnePiece(ring: Ring, at: nat): nat {
    Max(ring.capacity - Wrap(ring.start, at, ring.capacity), 0)
  }

  function ElementsOf(e: Entry, at: nat, ring: Ring): seq<Item> {
    ElementsOfPieces(e, Pieces(e.msg, 0, |e.msg|, InOnePiece(ring, at + ENTRY_HEADER)))
  }

  // ---- The message ----

  /** The elements for the first `n` entries that were not sent; for all of them if n <= 0. */
  function LogElements(entries: seq<Entry>, at: nat, n: int, ring: Ring): seq<Item> {
    if entries == [] then []
    else
      var e, next := entries[0], at + Size(entries[0]);
      if IsSent(e) then LogElements(entries[1..], next, n, ring)
      else ElementsOf(e, at, ring) + if n == 1 then [] else LogElements(entries[1..], next, n - 1, ring)
  }

  function MessageItems(metadata: seq<Item>, entries: seq<Entry>, n: nat, ring: Ring): seq<Item> {
    metadata + [Integer(EVENT_INFO_KEY), ArrayOf(ELEMENTS_PER_LOG * n)] + LogElements(entries, 0, n, ring)
  }

  function Message(metadata: seq<Item>, entries: seq<Entry>, n: nat, ring: Ring): seq<byte> {
    EncodeAll(MessageItems(metadata, entries, n, ring))
  }

  function Unsent(entries: seq<Entry>): nat {
    if entries == [] then 0 else (if IsSent(entries[0]) then 0 else 1) + Unsent(entries[1..])
  }

  // ---- While logs are uploaded, the message does not change ----

  /** `b` is `a`, maybe with more read marks, and with more entries behind it. */
  ghost predicate Extends(a: seq<Entry>, b: seq<Entry>) {
    && |a| <= |b|
    && forall i :: 0 <= i < |a| ==> SameLog(a[i], b[i]) && (IsSent(a[i]) <==> IsSent(b[i]))
  }

  lemma SameElements(a: Entry, b: Entry, pieces: seq<seq<byte>>)
    requires SameLog(a, b)
    ensures ElementsOfPieces(a, pieces) == ElementsOfPieces(b, pieces)
  {
  }

  lemma {:induction false} ElementsExtend(a: seq<Entry>, b: seq<Entry>, at: nat, n: int, ring: Ring)
    requires Extends(a, b) && 1 <= n <= Unsent(a)
    ensures LogElements(b, at, n, ring) == LogElements(a, at, n, ring)
    decreases |a|
  {
    hide SameLog, IsSent, InOnePiece, Pieces, ElementsOfPieces, Size;
    var first := Pieces(a[0].msg, 0, |a[0].msg|, InOnePiece(ring, at + ENTRY_HEADER));
    SameElements(a[0], b[0], first);
    SameMessage(a[0], b[0]);
    if IsSent(a[0]) {
      ElementsExtend(a[1..], b[1..], at + Size(a[0]), n, ring);
    } else if n > 1 {
      ElementsExtend(a[1..], b[1..], at + Size(a[0]), n - 1, ring);
    }
  }

  lemma SameMessage(a: Entry, b: Entry)
    requires SameLog(a, b)
    ensures a.msg == b.msg && Size(a) == Size(b)
  {
  }

  lemma SaveExtends(s: State, e: Entry, capacity: nat)
    requires s.collecting
    ensures Extends(s.entries, Save(s, e, capacity).entries) && Save(s, e, capacity).collecting
  {
    hide SameLog, IsSent, Size, TotalSize;
    forall i | 0 <= i < |s.entries|
      ensures SameLog(s.entries[i], s.entries[i])
    {
      SameAsItself(s.entries[i]);
    }
  }

  lemma ReadExtends(s: State, r: nat)
    requires s.collecting && r <= |s.entries|
    ensures Extends(s.entries, Read(s, r).0.entries) && Read(s, r).0.collecting
  {
    hide SameLog, IsSent, IsRead, LineOf;
    forall i | 0 <= i < |s.entries|
      ensures SameLog(s.entries[i], s.entries[i]) && SameLog(s.entries[i], MarkRead(s.entries[i]))
      ensures IsSent(MarkRead(s.entries[i])) <==> IsSent(s.entries[i])
    {
      SameAsItself(s.entries[i]);
      MarksAreSeparate(s.entries[i]);
    }
  }

  lemma ExtendsTwice(a: seq<Entry>, b: seq<Entry>, c: seq<Entry>)
    requires Extends(a, b) && Extends(b, c)
    ensures Extends(a, c)
  {
    hide IsSent, Level, IsCompact, IsTimestamped;
  }

  /** What other parts of the program do with the logs during an upload. */
  datatype Op = OpSave(e: Entry) | OpRead(r: nat)

  function Step(s: State, op: Op, capacity: nat): State {
    match op
    case OpSave(e) => Save(s, e, capacity)
    case OpRead(r) => if r <= |s.entries| then Read(s, r).0 else s
  }

  function Run(s: State, ops: seq<Op>, capacity: nat): State
    decreases |ops|
  {
    if ops == [] then s else Run(Step(s, ops[0], capacity), ops[1..], capacity)
  }

  lemma {:induction false} RunExtends(s: State, ops: seq<Op>, capacity: nat)
    requires s.collecting
    ensures Extends(s.entries, Run(s, ops, capacity).entries) && Run(s, ops, capacity).collecting
    decreases |ops|
  {
    hide Save, Read, Extends;
    if ops == [] {
      ExtendsItself(s.entries);
    } else {
      var t := Step(s, ops[0], capacity);
      match ops[0] {
        case OpSave(e) => SaveExtends(s, e, capacity);
        case OpRead(r) => if r <= |s.entries| { ReadExtends(s, r); } else { ExtendsItself(s.entries); }
      }
      RunExtends(t, ops[1..], capacity);
      ExtendsTwice(s.entries, t.entries, Run(s, ops, capacity).entries);
    }
  }

  lemma ExtendsItself(entries: seq<Entry>)
    ensures Extends(entries, entries)
  {
    forall i | 0 <= i < |entries|
      ensures SameLog(entries[i], entries[i])
    {
      SameAsItself(entries[i]);
    }
  }

  /** From the trigger on, whatever logs are saved and read, the message stays the same. */
  lemma MessageIsFrozen(s: State, ops: seq<Op>, metadata: seq<Item>, ring: Ring)
    requires s.collecting && Unsent(s.entries) > 0
    ensures var n := Unsent(s.entries);
            Message(metadata, Run(s, ops, ring.capacity).entries, n, ring) == Message(metadata, s.entries, n, ring)
  {
    hide Run, LogElements, Extends;
    RunExtends(s, ops, ring.capacity);
    ElementsExtend(s.entries, Run(s, ops, ring.capacity).entries, 0, Unsent(s.entries), ring);
  }

  // ---- Afterwards, just the uploaded logs are marked ----

  function MarkFirst(entries: seq<Entry>, n: int): (r: seq<Entry>)
    ensures |r| == |entries|
  {
    if entries == [] then []
    else if IsSent(entries[0]) then [entries[0]] + MarkFirst(entries[1..], n)
    else [MarkSent(entries[0])] + if n == 1 then entries[1..] else MarkFirst(entries[1..], n - 1)
  }

  lemma {:induction false} NoneUnsent(entries: seq<Entry>)
    requires Unsent(entries) == 0
    ensures forall i :: 0 <= i < |entries| ==> IsSent(entries[i])
    decreases |entries|
  {
    hide IsSent;
    if entries != [] {
      NoneUnsent(entries[1..]);
    }
  }

  /** Marking as many as were not sent among the first `m` marks all of these, and nothing else. */
  lemma {:induction false} MarkFirstIs(entries: seq<Entry>, m: nat, n: int, i: nat)
    requires m <= |entries| && 1 <= n == Unsent(entries[..m]) && i < |entries|
    ensures MarkFirst(entries, n)[i] == if i < m then MarkSent(entries[i]) else entries[i]
    decreases |entries|
  {
    hide IsSent, MarkSent;
    var e, rest := entries[0], entries[1..];
    assert entries[..m][1..] == rest[..m - 1] && entries[..m][0] == e;
    MarkSentTwice(e);
    if IsSent(e) {
      if i > 0 {
        MarkFirstIs(rest, m - 1, n, i - 1);
      }
    } else if n == 1 {
      NoneUnsent(rest[..m - 1]);
      if 0 < i < m {
        assert rest[..m - 1][i - 1] == entries[i];
        MarkSentTwice(entries[i]);
      }
    } else if i > 0 {
      MarkFirstIs(rest, m - 1, n - 1, i - 1);
    }
  }

  lemma MarkSentTwice(e: Entry)
    ensures IsSent(e) ==> MarkSent(e) == e
  {
  }

  lemma {:induction false} UnsentExtends(a: seq<Entry>, b: seq<Entry>)
    requires Extends(a, b)
    ensures Unsent(b[..|a|]) == Unsent(a)
    decreases |a|
  {
    hide IsSent, SameLog;
    if a != [] {
      UnsentExtends(a[1..], b[1..]);
      assert b[..|a|][1..] == b[1..][..|a| - 1];
    }
  }

  /** Once the message was sent, the logs that were there at the trigger are marked, and no log that came
    * during the upload is; nothing else about them changes. */
  lemma ExactlyTheUploadedAreMarked(s: State, ops: seq<Op>, capacity: nat)
    requires s.collecting && Unsent(s.entries) > 0
    ensures var t := Run(s, ops, capacity).entries;
            && |s.entries| <= |t|
            && forall i :: 0 <= i < |t| ==>
                 var after := MarkFirst(t, Unsent(s.entries))[i];
                 && after == (if i < |s.entries| then MarkSent(t[i]) else t[i])
                 && (IsSent(after) <==> i < |s.entries| || IsSent(t[i]))
                 && (i < |s.entries| ==> SameLog(s.entries[i], after))
  {
    hide Run, IsSent, SameLog, MarkSent;
    RunExtends(s, ops, capacity);
    var t := Run(s, ops, capacity).entries;
    UnsentExtends(s.entries, t);
    forall i | 0 <= i < |t|
      ensures MarkFirst(t, Unsent(s.entries))[i] == if i < |s.entries| then MarkSent(t[i]) else t[i]
      ensures IsSent(MarkSent(t[i])) && (i < |s.entries| ==> SameLog(s.entries[i], MarkSent(t[i])))
    {
      MarkFirstIs(t, |s.entries|, Unsent(s.entries), i);
      MarksAreSeparate(t[i]);
      if i < |s.entries| {
        SameLogTwice(s.entries[i], t[i], MarkSent(t[i]));
      }
    }
  }

  // ---- When the array holds what was announced ----

  /** The logs as the receiver is meant to get them: three elements each. */
  function Intended(entries: seq<Entry>, n: int): seq<Item>
    requires forall i :: 0 <= i < |entries| ==> Proper(entries[i])
  {
    if entries == [] then []
    else if IsSent(entries[0]) then Intended(entries[1..], n)
    else
      assert Proper(entries[0]);
      Elements(entries[0], entries[0].msg) + if n == 1 then [] else Intended(entries[1..], n - 1)
  }

  /** Entries as they are recorded. */
  predicate Proper(e: Entry) {
    |e.msg| < 0x100 && (IsTimestamped(e) ==> |e.msg| >= 4)
  }

  lemma RecordedIsProper(level: nat, compact: bool, timestamp: Option<nat>, log: seq<byte>)
    requires level < 8 && (timestamp.Some? ==> timestamp.value < UINT32_LIMIT)
    ensures Proper(NewEntry(level, compact, timestamp, log))
  {
    hide BuildHeader;
    HeaderHoldsFields(level, compact, timestamp.Some?, NewEntry(level, compact, timestamp, log).msg);
  }

  /** The message of the entry at `at` is not empty, and does not continue at the beginning of the storage. */
  predicate Intact(e: Entry, at: nat, ring: Ring) {
    0 < |e.msg| <= InOnePiece(ring, at + ENTRY_HEADER)
  }

  predicate AllIntact(entries: seq<Entry>, at: nat, n: int, ring: Ring) {
    if entries == [] then true
    else
      var e, next := entries[0], at + Size(entries[0]);
      if IsSent(e) then AllIntact(entries[1..], next, n, ring)
      else Intact(e, at, ring) && (n == 1 || AllIntact(entries[1..], next, n - 1, ring))
  }

  function TextWeight(n: nat): (w: nat)
    ensures w > 0
  {
    n * n + 1
  }

  /** A measure under which a log weighs less when it is left out, cut off, or split in two. */
  function Weight(items: seq<Item>): nat {
    if items == [] then 0
    else
      var w := match items[0]
               case ByteString(data) => TextWeight(|data|)
               case TextString(data) => TextWeight(|data|)
               case _ => 0;
      w + Weight(items[1..])
  }

  lemma {:induction false} WeightOfConcat(a: seq<Item>, b: seq<Item>)
    ensures Weight(a + b) == Weight(a) + Weight(b)
    decreases |a|
  {
    if a == [] {
      assert a + b == b;
    } else {
      WeightOfConcat(a[1..], b);
      assert (a + b)[1..] == a[1..] + b;
    }
  }

  lemma WeightOfElements(e: Entry, piece: seq<byte>)
    requires IsTimestamped(e) ==> |piece| >= 4
    ensures var n := |piece| - if IsTimestamped(e) then 4 else 0;
            Weight(Elements(e, piece)) == TextWeight(n)
  {
    hide FromWord, TextWeight;
    var items := Elements(e, piece);
    assert items[1..][1..][0] == items[2] && items[1..][0] == items[1];
    assert items[1..][1..][1..] == [];
    var n := |piece| - if IsTimestamped(e) then 4 else 0;
    var text := if IsTimestamped(e) then piece[4..] else piece;
    assert Weight(items[1..][1..]) == TextWeight(|text|);
    assert Weight(items[1..]) == Weight(items[1..][1..]);
    assert |text| == n;
  }

  lemma Expand(a: int, b: int)
    ensures (a + b) * (a + b) == a * a + 2 * (a * b) + b * b
  {
  }

  lemma Product(a: nat, b: nat)
    ensures a * b >= 0
    ensures a > 0 && b > 0 ==> a * b >= 1
  {
  }

  lemma SplitIsLighter(a: nat, b: nat)
    requires a > 0 && b > 0
    ensures TextWeight(a) + TextWeight(b) < TextWeight(a + b)
  {
    Expand(a, b);
    Product(a, b);
  }

  lemma CutIsLighter(a: nat, lost: nat)
    requires lost > 0
    ensures TextWeight(a) < TextWeight(a + lost)
  {
    Expand(a, lost);
    Product(a, lost);
    Product(lost, lost);
  }

  lemma OnePiece(e: Entry, piece: seq<byte>)
    ensures ElementsOfPieces(e, [piece]) == if IsTimestamped(e) && |piece| < 4 then [] else Elements(e, piece)
  {
    hide Elements;
    assert [piece][1..] == [];
  }

  /** A message in two pieces weighs less than the log. */
  lemma TwoPieces(e: Entry, a: seq<byte>, b: seq<byte>)
    requires IsTimestamped(e) ==> |a| + |b| >= 4
    requires |a| > 0 && |b| > 0
    ensures Weight(ElementsOfPieces(e, [a, b])) < Weight(Elements(e, a + b))
  {
    hide Weight, TextWeight, Elements, IsTimestamped, ElementsOfPieces;
    OnePiece(e, b);
    FirstPiece(e, a, b);
    WeightOfElements(e, a + b);
    NoWeight();
    if IsTimestamped(e) {
      if |a| >= 4 {
        TimestampedPieces(e, a, b);
      }
    } else {
      WeightOfElements(e, a);
      WeightOfElements(e, b);
      WeightOfConcat(Elements(e, a), Elements(e, b));
      SplitIsLighter(|a|, |b|);
    }
  }

  lemma FirstPiece(e: Entry, a: seq<byte>, b: seq<byte>)
    ensures ElementsOfPieces(e, [a, b]) ==
            if IsTimestamped(e) && |a| < 4 then [] else Elements(e, a) + ElementsOfPieces(e, [b])
  {
    hide Elements;
    assert [a, b][1..] == [b];
  }

  lemma TimestampedPieces(e: Entry, a: seq<byte>, b: seq<byte>)
    requires IsTimestamped(e) && |a| >= 4 && |b| > 0
    ensures var rest := if |b| < 4 then [] else Elements(e, b);
            Weight(Elements(e, a) + rest) < Weight(Elements(e, a + b))
  {
    hide Weight, TextWeight, Elements, IsTimestamped;
    var n := |a| - 4;
    WeightOfElements(e, a);
    WeightOfElements(e, a + b);
    if |b| < 4 {
      CutIsLighter(n, |b|);
      assert Elements(e, a) + [] == Elements(e, a);
    } else {
      WeightOfElements(e, b);
      WeightOfConcat(Elements(e, a), Elements(e, b));
      TwoAreLighter(n, |b| - 4);
    }
  }

  lemma TwoAreLighter(a: nat, b: nat)
    ensures TextWeight(a) + TextWeight(b) < TextWeight(a + b + 4)
  {
    Expand(a + b, 4);
    Expand(a, b);
    Product(a, b);
  }

  lemma NoWeight()
    ensures Weight([]) == 0
  {
  }

  lemma IntactElements(e: Entry, at: nat, ring: Ring)
    requires Proper(e) && ring.start < ring.capacity && at + Size(e) <= ring.capacity
    ensures IsTimestamped(e) ==> |e.msg| >= 4
    ensures if Intact(e, at, ring) then ElementsOf(e, at, ring) == Elements(e, e.msg)
            else Weight(ElementsOf(e, at, ring)) < Weight(Elements(e, e.msg))
  {
    hide FromWord, Elements, Weight, TextWeight;
    var first := InOnePiece(ring, at + ENTRY_HEADER);
    assert first >= 1;
    if e.msg == [] {
      NoWeight();
      WeightOfElements(e, e.msg);
    } else if |e.msg| <= first {
      assert e.msg[0..|e.msg|] == e.msg;
      OnePiece(e, e.msg);
    } else {
      var a, b := e.msg[0..first], e.msg[first..|e.msg|];
      assert a + b == e.msg;
      TwoPieces(e, a, b);
    }
  }

  lemma FrontSize(entries: seq<Entry>)
    requires entries != []
    ensures TotalSize(entries) == Size(entries[0]) + TotalSize(entries[1..])
  {
    FrontTotal(entries, |entries|);
    assert entries[..|entries|] == entries && entries[1..][..|entries| - 1] == entries[1..];
  }

  lemma {:induction false} LighterUnlessIntact(entries: seq<Entry>, at: nat, n: int, ring: Ring)
    requires ring.start < ring.capacity && at + TotalSize(entries) <= ring.capacity
    requires forall i :: 0 <= i < |entries| ==> Proper(entries[i])
    ensures if AllIntact(entries, at, n, ring) then LogElements(entries, at, n, ring) == Intended(entries, n)
            else Weight(LogElements(entries, at, n, ring)) < Weight(Intended(entries, n))
    decreases |entries|
  {
    hide IsSent, TotalSize, ElementsOf, Elements, Size, Intact, Proper, Weight;
    if entries != [] {
      var e, rest, next := entries[0], entries[1..], at + Size(entries[0]);
      FrontSize(entries);
      if IsSent(e) {
        LighterUnlessIntact(rest, next, n, ring);
      } else {
        IntactElements(e, at, ring);
        var tail := if n == 1 then [] else Intended(rest, n - 1);
        var actual := if n == 1 then [] else LogElements(rest, next, n - 1, ring);
        WeightOfConcat(Elements(e, e.msg), tail);
        WeightOfConcat(ElementsOf(e, at, ring), actual);
        if n != 1 {
          LighterUnlessIntact(rest, next, n - 1, ring);
        }
      }
    }
  }

  /** The array holds the three elements of each log, and no others, exactly when no uploaded log is empty
    * and none continues at the beginning of the storage. */
  lemma ArrayIsRightWhenIntact(entries: seq<Entry>, at: nat, n: int, ring: Ring)
    requires ring.start < ring.capacity && at + TotalSize(entries) <= ring.capacity
    requires forall i :: 0 <= i < |entries| ==> Proper(entries[i])
    ensures LogElements(entries, at, n, ring) == Intended(entries, n) <==> AllIntact(entries, at, n, ring)
  {
    hide LogElements, Intended, Weight, AllIntact, Proper, TotalSize;
    LighterUnlessIntact(entries, at, n, ring);
  }

  lemma {:induction false} IntendedCount(entries: seq<Entry>, n: int)
    requires forall i :: 0 <= i < |entries| ==> Proper(entries[i])
    requires 1 <= n <= Unsent(entries)
    ensures |Intended(entries, n)| == ELEMENTS_PER_LOG * n
    decreases |entries|
  {
    hide Elements, IsSent;
    if IsSent(entries[0]) {
      IntendedCount(entries[1..], n);
    } else if n > 1 {
      IntendedCount(entries[1..], n - 1);
    }
  }

  predicate AllEncodable(items: seq<Item>) {
    forall i :: 0 <= i < |items| ==> Encodable(items[i])
  }

  lemma ElementsEncodable(e: Entry, piece: seq<byte>)
    requires |piece| < 0x100 && (IsTimestamped(e) ==> |piece| >= 4)
    ensures AllEncodable(Elements(e, piece))
  {
    hide FromWord;
  }

  lemma EncodableConcat(a: seq<Item>, b: seq<Item>)
    requires AllEncodable(a) && AllEncodable(b)
    ensures AllEncodable(a + b)
  {
    hide Encodable;
  }

  lemma {:induction false} PiecesEncodable(e: Entry, pieces: seq<seq<byte>>)
    requires forall i :: 0 <= i < |pieces| ==> |pieces[i]| < 0x100
    ensures AllEncodable(ElementsOfPieces(e, pieces))
    decreases |pieces|
  {
    hide AllEncodable, Elements;
    NothingEncodable();
    if pieces != [] && !(IsTimestamped(e) && |pieces[0]| < 4) {
      ElementsEncodable(e, pieces[0]);
      PiecesEncodable(e, pieces[1..]);
      EncodableConcat(Elements(e, pieces[0]), ElementsOfPieces(e, pieces[1..]));
    }
  }

  lemma NothingEncodable()
    ensures AllEncodable([])
  {
  }

  lemma {:induction false} LogsEncodable(entries: seq<Entry>, at: nat, n: int, ring: Ring)
    requires forall i :: 0 <= i < |entries| ==> |entries[i].msg| < 0x100
    ensures AllEncodable(LogElements(entries, at, n, ring))
    decreases |entries|
  {
    hide AllEncodable, ElementsOfPieces, IsSent, Size;
    NothingEncodable();
    if entries != [] {
      var e, next := entries[0], at + Size(entries[0]);
      LogsEncodable(entries[1..], next, n, ring);
      LogsEncodable(entries[1..], next, n - 1, ring);
      PiecesEncodable(e, Pieces(e.msg, 0, |e.msg|, InOnePiece(ring, at + ENTRY_HEADER)));
      EncodableConcat(ElementsOf(e, at, ring), if n == 1 then [] else LogElements(entries[1..], next, n - 1, ring));
    }
  }

  /** The message decodes to the metadata and an array of as many elements as it announces, which are the
    * time, the level and the text of each log, exactly when all uploaded logs are intact. */
  lemma MessageDecodes(metadata: seq<Item>, entries: seq<Entry>, n: nat, ring: Ring)
    requires AllEncodable(metadata)
    requires forall i :: 0 <= i < |entries| ==> Proper(entries[i])
    requires 1 <= n <= Unsent(entries) && ELEMENTS_PER_LOG * n < UINT32_LIMIT
    requires ring.start < ring.capacity && TotalSize(entries) <= ring.capacity
    ensures |Intended(entries, n)| == ELEMENTS_PER_LOG * n
    ensures DecodeAll(Message(metadata, entries, n, ring)) ==
            Some(metadata + [Integer(EVENT_INFO_KEY), ArrayOf(ELEMENTS_PER_LOG * n)] + Intended(entries, n)) <==>
            AllIntact(entries, 0, n, ring)
  {
    hide Intended, LogElements, AllIntact, TotalSize, AllEncodable, Encodable, DecodeAll, EncodeAll;
    ArrayIsRightWhenIntact(entries, 0, n, ring);
    IntendedCount(entries, n);
    LogsEncodable(entries, 0, n, ring);
    var front := metadata + [Integer(EVENT_INFO_KEY), ArrayOf(ELEMENTS_PER_LOG * n)];
    TwoEncodable(n);
    EncodableConcat(metadata, [Integer(EVENT_INFO_KEY), ArrayOf(ELEMENTS_PER_LOG * n)]);
    EncodableConcat(front, LogElements(entries, 0, n, ring));
    AllReadBack(MessageItems(metadata, entries, n, ring));
    SameRest(front, LogElements(entries, 0, n, ring), Intended(entries, n));
  }

  lemma TwoEncodable(n: nat)
    requires ELEMENTS_PER_LOG * n < UINT32_LIMIT
    ensures AllEncodable([Integer(EVENT_INFO_KEY), ArrayOf(ELEMENTS_PER_LOG * n)])
  {
  }

  lemma AllReadBack(items: seq<Item>)
    requires AllEncodable(items)
    ensures DecodeAll(EncodeAll(items)) == Some(items)
  {
    hide Encodable, DecodeAll, EncodeAll;
    AllRoundTrip(items);
  }

  lemma SameRest<T>(a: seq<T>, b: seq<T>, c: seq<T>)
    ensures a + b == a + c <==> b == c
  {
    if a + b == a + c {
      assert b == (a + b)[|a|..] == (a + c)[|a|..] == c;
    }
  }

  /** A log is uploaded with the level, the time and the line that it was saved with, exactly when it is
    * not empty and does not continue at the beginning of the storage. */
  lemma UploadedAsSaved(level: nat, compact: bool, timestamp: Option<nat>, log: seq<byte>, at: nat, ring: Ring)
    requires level < 8 && |log| <= MAX_LINE && (timestamp.Some? ==> timestamp.value < UINT32_LIMIT)
    requires ring.start < ring.capacity && at + Size(NewEntry(level, compact, timestamp, log)) <= ring.capacity
    ensures var e := NewEntry(level, compact, timestamp, log);
            ElementsOf(e, at, ring) == [Integer(if timestamp.Some? then timestamp.value else 0), Integer(level),
                                        if compact then ByteString(log) else TextString(log)] <==>
            Intact(e, at, ring)
  {
    hide FromWord, Word, BuildHeader, ElementsOf, Intact, Proper;
    var e := NewEntry(level, compact, timestamp, log);
    HeaderHoldsFields(level, compact, timestamp.Some?, e.msg);
    RecordedIsProper(level, compact, timestamp, log);
    IntactElements(e, at, ring);
    if timestamp.Some? {
      WordRoundTrip(timestamp.value);
      assert e.msg[..4] == Word(timestamp.value) && e.msg[4..] == log;
    } else {
      assert e.msg == log;
    }
  }

  // ---- Two ways in which it goes wrong ----

  /** Where the contents begin after a log was saved. */
  function RingAfterSave(ring: Ring, s: State, e: Entry): Ring {
    ring.(start := Wrap(ring.start, Freed(s, e, ring.capacity), ring.capacity))
  }

  /** During an upload that stays. */
  lemma RingIsFrozen(ring: Ring, s: State, e: Entry)
    requires s.collecting && ring.start < ring.capacity
    ensures RingAfterSave(ring, s, e) == ring
  {
    hide TotalSize;
    EmptyTotal();
    assert s.entries[..0] == [];
  }

  /** An empty line that is saved while the time is not known has no elements at all. */
  lemma EmptyLineIsMissing(level: nat)
    requires level < 8
    ensures var e := NewEntry(level, false, None, []);
            && Save(EMPTY, e, 100).entries == [e] && Unsent([e]) == 1
            && RingAfterSave(Ring(0, 100), EMPTY, e) == Ring(0, 100)
            && LogElements([e], 0, 1, Ring(0, 100)) == []
            && MessageItems([], [e], 1, Ring(0, 100)) == [Integer(EVENT_INFO_KEY), ArrayOf(3)]
  {
    var e := NewEntry(level, false, None, []);
    HeaderHoldsFields(level, false, false, []);
    EmptyTotal();
    assert EMPTY.entries[..0] == [];
    assert [] + [e] == [e] && [e][1..] == [];
  }

  /** In a buffer of 13 bytes, the third of three lines of three bytes takes the place of the first, and
    * continues at the beginning of the storage. It is uploaded as two logs, of one byte and of two. */
  lemma StraddlingLogIsSplit(level: nat, line: seq<byte>)
    requires level < 8 && |line| == 3
    ensures var e := NewEntry(level, false, None, line);
            var one, two := Save(EMPTY, e, 13), Save(Save(EMPTY, e, 13), e, 13);
            var ring := RingAfterSave(RingAfterSave(RingAfterSave(Ring(0, 13), EMPTY, e), one, e), two, e);
            && Save(two, e, 13).entries == [e, e] && Unsent([e, e]) == 2 && ring == Ring(5, 13)
            && LogElements([e, e], 0, 2, ring) ==
               [Integer(0), Integer(level), TextString(line),
                Integer(0), Integer(level), TextString(line[..1]),
                Integer(0), Integer(level), TextString(line[1..])]
  {
    var e := NewEntry(level, false, None, line);
    PlainEntry(level, line);
    SavesOfThreeBytes(e);
    ElementsOfTwo(e, line);
    hide LogElements, Save, Unsent;
  }

  lemma PlainEntry(level: nat, line: seq<byte>)
    requires level < 8 && |line| == 3
    ensures var e := NewEntry(level, false, None, line);
            && e.msg == line && Level(e) == level
            && !IsRead(e) && !IsSent(e) && !IsTimestamped(e) && !IsCompact(e)
  {
    hide BuildHeader;
    HeaderHoldsFields(level, false, false, line);
    assert [] + line == line;
  }

  lemma ElementsOfTwo(e: Entry, line: seq<byte>)
    requires e.msg == line && |line| == 3 && !IsSent(e) && !IsTimestamped(e) && !IsCompact(e)
    ensures Unsent([e, e]) == 2
    ensures LogElements([e, e], 0, 2, Ring(5, 13)) ==
            Elements(e, line) + (Elements(e, line[..1]) + Elements(e, line[1..]))
    ensures Elements(e, line) == [Integer(0), Integer(Level(e)), TextString(line)]
    ensures Elements(e, line[..1]) == [Integer(0), Integer(Level(e)), TextString(line[..1])]
    ensures Elements(e, line[1..]) == [Integer(0), Integer(Level(e)), TextString(line[1..])]
  {
    hide InOnePiece, IsTimestamped, IsCompact, Level, IsSent, ElementsOfPieces, Elements;
    PlacesInRing();
    assert [e, e][1..] == [e] && [e][1..] == [];
    assert line[0..3] == line && line[0..1] == line[..1] && line[1..3] == line[1..];
    OnePiece(e, line);
    FirstPiece(e, line[..1], line[1..]);
    OnePiece(e, line[1..]);
    assert ElementsOf(e, 0, Ring(5, 13)) == Elements(e, line);
    assert ElementsOf(e, 5, Ring(5, 13)) == Elements(e, line[..1]) + Elements(e, line[1..]);
    assert LogElements([e], 5, 1, Ring(5, 13)) == ElementsOf(e, 5, Ring(5, 13));
    assert LogElements([e, e], 0, 2, Ring(5, 13)) ==
           ElementsOf(e, 0, Ring(5, 13)) + LogElements([e], 5, 1, Ring(5, 13));
    assert Unsent([e]) == 1;
    ElementsOfPlain(e, line);
    ElementsOfPlain(e, line[..1]);
    ElementsOfPlain(e, line[1..]);
  }

  lemma ElementsOfPlain(e: Entry, text: seq<byte>)
    requires !IsTimestamped(e) && !IsCompact(e)
    ensures Elements(e, text) == [Integer(0), Integer(Level(e)), TextString(text)]
  {
  }

  lemma PlacesInRing()
    ensures InOnePiece(Ring(5, 13), 2) == 6 && InOnePiece(Ring(5, 13), 7) == 1
  {
  }

  lemma SavesOfThreeBytes(e: Entry)
    requires |e.msg| == 3 && !IsRead(e) && !IsSent(e)
    ensures var one, two := Save(EMPTY, e, 13), Save(Save(EMPTY, e, 13), e, 13);
            && one.entries == [e] && two.entries == [e, e] && Save(two, e, 13).entries == [e, e]
            && Freed(EMPTY, e, 13) == 0 && Freed(one, e, 13) == 0 && Freed(two, e, 13) == 5
  {
    EmptyTotal();
    SingleTotal(e);
    PushTotal([e], e);
    assert [e] + [e] == [e, e] && [] + [e] == [e] && [e, e][1..] == [e] && [e, e][..1] == [e];
    assert [e][..0] == [] && EMPTY.entries[..0] == [];
    var one := Save(EMPTY, e, 13);
    assert one == Push(EMPTY, e);
    var two := Save(one, e, 13);
    assert two == Push(one, e);
    assert Missing(two, e, 13) == 2;
    assert FreedCount([e, e], 2) == 1 by {
      assert FreedCount([e], -3) == 0;
    }
    assert Free(two, 2) == DropOldest(two);
  }
}
