/** Tracks the newest heap allocations in a fixed pool whose entries are linked by index
  * (components/core/src/memfault_heap_stats.c). */
module HeapStats {
  import opened Bytes

  const LIST_END := 0xffff
  const SIZE_LIMIT := 0x8000_0000

  // ---- The tracked allocations as a list ----

  datatype Allocation = Allocation(lr: nat, ptr: nat, size: nat)

  /** A new allocation goes to the front; of more than `max` the oldest is dropped. */
  function Malloc(tracked: seq<Allocation>, a: Allocation, max: nat): (r: seq<Allocation>)
    requires max > 0
  {
    [a] + if |tracked| < max then tracked else tracked[..max - 1]
  }

  /** The place of the newest allocation with this pointer; |list| when there is none. */
  function Find(list: seq<Allocation>, ptr: nat): (k: nat)
    ensures k <= |list|
    ensures k < |list| ==> list[k].ptr == ptr
    ensures forall i :: 0 <= i < k ==> list[i].ptr != ptr
  {
    if list == [] || list[0].ptr == ptr then 0 else 1 + Find(list[1..], ptr)
  }

  function RemoveAt<T>(s: seq<T>, k: nat): (r: seq<T>)
    requires k < |s|
    ensures |r| == |s| - 1
    ensures forall i :: 0 <= i < |r| ==> r[i] == if i < k then s[i] else s[i + 1]
  {
    s[..k] + s[k + 1..]
  }

  function Free(list: seq<Allocation>, ptr: nat): seq<Allocation> {
    var k := Find(list, ptr);
    if k < |list| then RemoveAt(list, k) else list
  }

  ghost predicate DistinctPointers(list: seq<Allocation>) {
    forall i, j :: 0 <= i < j < |list| ==> list[i].ptr != list[j].ptr
  }

  /** What is left, in order, is all that has another pointer. */
  lemma FreeForgets(list: seq<Allocation>, ptr: nat)
    requires DistinctPointers(list)
    ensures var rest := Free(list, ptr);
            && (forall a: Allocation :: a in rest <==> a in list && a.ptr != ptr)
            && (rest == list || exists k: nat :: k < |list| && list[k].ptr == ptr && rest == list[..k] + list[k + 1..])
  {
    var k, rest := Find(list, ptr), Free(list, ptr);
    if k < |list| {
      forall a: Allocation
        ensures a in rest <==> a in list && a.ptr != ptr
      {
        if a in list && a.ptr != ptr {
          var i :| 0 <= i < |list| && list[i] == a;
          assert rest[if i < k then i else i - 1] == a;
        }
      }
    }
  }

  // ---- What is tracked, compared with what is live ----

  datatype Op = OpMalloc(a: Allocation) | OpFree(ptr: nat)

  datatype Heap = Heap(live: seq<Allocation>, tracked: seq<Allocation>)

  /** The heap hands out no pointer that is in use. */
  ghost predicate Possible(h: Heap, op: Op) {
    op.OpMalloc? ==> forall i :: 0 <= i < |h.live| ==> h.live[i].ptr != op.a.ptr
  }

  function Step(h: Heap, op: Op, max: nat): Heap
    requires max > 0
  {
    match op
    case OpMalloc(a) => Heap([a] + h.live, Malloc(h.tracked, a, max))
    case OpFree(ptr) => Heap(Free(h.live, ptr), Free(h.tracked, ptr))
  }

  /** The tracked allocations are the newest of the live ones. */
  ghost predicate Newest(h: Heap, max: nat) {
    && DistinctPointers(h.live)
    && |h.tracked| <= max && |h.tracked| <= |h.live|
    && h.tracked == h.live[..|h.tracked|]
  }

  lemma FindInPrefix(list: seq<Allocation>, n: nat, ptr: nat)
    requires n <= |list|
    ensures Find(list[..n], ptr) == if Find(list, ptr) < n then Find(list, ptr) else n
  {
  }

  lemma MallocKeepsNewest(h: Heap, a: Allocation, max: nat)
    requires max > 0 && Newest(h, max) && Possible(h, OpMalloc(a))
    ensures Newest(Step(h, OpMalloc(a), max), max)
  {
  }

  lemma RemovedPrefix(s: seq<Allocation>, k: nat, n: nat)
    requires k < |s| && n <= |s|
    ensures k < n ==> RemoveAt(s[..n], k) == RemoveAt(s, k)[..n - 1]
    ensures k >= n ==> s[..n] == RemoveAt(s, k)[..n]
  {
  }

  lemma RemovedDistinct(s: seq<Allocation>, k: nat)
    requires DistinctPointers(s) && k < |s|
    ensures DistinctPointers(RemoveAt(s, k))
  {
  }

  lemma FreeKeepsNewest(h: Heap, ptr: nat, max: nat)
    requires max > 0 && Newest(h, max)
    ensures Newest(Step(h, OpFree(ptr), max), max)
  {
    hide Find, RemoveAt, DistinctPointers;
    var k, n := Find(h.live, ptr), |h.tracked|;
    FindInPrefix(h.live, n, ptr);
    if k < |h.live| {
      RemovedDistinct(h.live, k);
      RemovedPrefix(h.live, k, n);
    }
  }

  lemma StepKeepsNewest(h: Heap, op: Op, max: nat)
    requires max > 0 && Newest(h, max) && Possible(h, op)
    ensures Newest(Step(h, op, max), max)
  {
    hide Step, Newest, Possible;
    match op
    case OpMalloc(a) => MallocKeepsNewest(h, a, max);
    case OpFree(ptr) => FreeKeepsNewest(h, ptr, max);
  }

  ghost predicate PossibleRun(h: Heap, ops: seq<Op>, max: nat)
    requires max > 0
    decreases |ops|
  {
    ops != [] ==> Possible(h, ops[0]) && PossibleRun(Step(h, ops[0], max), ops[1..], max)
  }

  function Run(h: Heap, ops: seq<Op>, max: nat): Heap
    requires max > 0
    decreases |ops|
  {
    if ops == [] then h else Run(Step(h, ops[0], max), ops[1..], max)
  }

  /** After any run, the tracked allocations are the newest live ones, newest first. */
  lemma {:induction false} TrackedAreNewest(h: Heap, ops: seq<Op>, max: nat)
    requires max > 0 && Newest(h, max) && PossibleRun(h, ops, max)
    ensures Newest(Run(h, ops, max), max)
    decreases |ops|
  {
    if ops != [] {
      StepKeepsNewest(h, ops[0], max);
      TrackedAreNewest(Step(h, ops[0], max), ops[1..], max);
    }
  }

  // ---- How many are missing ----

  /** How many more of the live allocations the pool could hold. */
  function Missing(h: Heap, max: nat): int {
    Min(max, |h.live|) - |h.tracked|
  }

  /** How a step changes that. A tracked allocation that is freed while more are live than the pool can
    * hold leaves a gap, for the dropped ones are not tracked again; a new allocation fills a gap; and one
    * that is not tracked is no longer missing once it is freed. */
  function Change(h: Heap, op: Op, max: nat): int {
    match op
    case OpMalloc(a) => if |h.tracked| < max <= |h.live| then -1 else 0
    case OpFree(ptr) =>
      if Find(h.live, ptr) < |h.tracked| then if |h.live| > max then 1 else 0
      else if Find(h.live, ptr) < |h.live| <= max then -1
      else 0
  }

  lemma MissingAfterStep(h: Heap, op: Op, max: nat)
    requires max > 0 && Newest(h, max) && Possible(h, op)
    ensures Missing(h, max) >= 0
    ensures Missing(Step(h, op, max), max) == Missing(h, max) + Change(h, op, max)
  {
    if op.OpFree? {
      FindInPrefix(h.live, |h.tracked|, op.ptr);
    }
  }

  /** All changes of a run. */
  function Changes(h: Heap, ops: seq<Op>, max: nat): int
    requires max > 0
    decreases |ops|
  {
    if ops == [] then 0 else Change(h, ops[0], max) + Changes(Step(h, ops[0], max), ops[1..], max)
  }

  lemma {:induction false} MissingAfterRun(h: Heap, ops: seq<Op>, max: nat)
    requires max > 0 && Newest(h, max) && PossibleRun(h, ops, max)
    ensures Missing(Run(h, ops, max), max) == Missing(h, max) + Changes(h, ops, max)
    decreases |ops|
  {
    hide Newest, Step, Change, Missing;
    if ops != [] {
      StepKeepsNewest(h, ops[0], max);
      MissingAfterStep(h, ops[0], max);
      MissingAfterRun(Step(h, ops[0], max), ops[1..], max);
    }
  }

  /** The pool is full, or holds all that is live. */
  predicate Full(h: Heap, max: nat) {
    |h.tracked| == max || h.tracked == h.live
  }

  lemma FullIsNothingMissing(h: Heap, max: nat)
    requires Newest(h, max)
    ensures Full(h, max) <==> Missing(h, max) == 0
  {
  }

  /** A tracked allocation is freed while one is live that is not tracked. */
  predicate LeavesGap(h: Heap, op: Op) {
    op.OpFree? && |h.tracked| < |h.live| && Find(h.tracked, op.ptr) < |h.tracked|
  }

  /** The pool stays full exactly when a step does not leave a gap. */
  lemma FullUnlessGap(h: Heap, op: Op, max: nat)
    requires max > 0 && Newest(h, max) && Possible(h, op) && Full(h, max)
    ensures Full(Step(h, op, max), max) <==> !LeavesGap(h, op)
  {
    StepKeepsNewest(h, op, max);
    MissingAfterStep(h, op, max);
    FullIsNothingMissing(h, max);
    FullIsNothingMissing(Step(h, op, max), max);
    if op.OpFree? {
      FindInPrefix(h.live, |h.tracked|, op.ptr);
    }
    hide Step, Missing;
  }

  predicate AlwaysFull(h: Heap, ops: seq<Op>, max: nat)
    requires max > 0
    decreases |ops|
  {
    Full(h, max) && (ops != [] ==> AlwaysFull(Step(h, ops[0], max), ops[1..], max))
  }

  predicate NeverGap(h: Heap, ops: seq<Op>, max: nat)
    requires max > 0
    decreases |ops|
  {
    ops != [] ==> !LeavesGap(h, ops[0]) && NeverGap(Step(h, ops[0], max), ops[1..], max)
  }

  /** So it is over whole runs: the pool is full or complete all the time exactly when no step of the run
    * leaves a gap. */
  lemma {:induction false} AlwaysFullUnlessGap(h: Heap, ops: seq<Op>, max: nat)
    requires max > 0 && Newest(h, max) && PossibleRun(h, ops, max) && Full(h, max)
    ensures AlwaysFull(h, ops, max) <==> NeverGap(h, ops, max)
    decreases |ops|
  {
    hide Newest, Step, Full, LeavesGap;
    if ops != [] {
      StepKeepsNewest(h, ops[0], max);
      FullUnlessGap(h, ops[0], max);
      var t := Step(h, ops[0], max);
      if Full(t, max) {
        AlwaysFullUnlessGap(t, ops[1..], max);
      }
    }
  }

  /** An example of a gap: an allocation that was dropped for a newer one is not tracked again when that one
    * is freed. */
  lemma DroppedAllocationsStayDropped(a: Allocation, b: Allocation)
    requires a.ptr != b.ptr
    ensures var h := Step(Step(Step(Heap([], []), OpMalloc(a), 1), OpMalloc(b), 1), OpFree(b.ptr), 1);
            h.live == [a] && h.tracked == []
  {
    assert Malloc([a], b, 1) == [b];
    FreeFirst(b, [a]);
    FreeFirst(b, []);
  }

  lemma FreeFirst(b: Allocation, rest: seq<Allocation>)
    ensures Free([b] + rest, b.ptr) == rest
  {
  }

  /** More allocations are made than the pool can hold. */
  predicate Overflows(h: Heap, op: Op, max: nat) {
    op.OpMalloc? && |h.live| == max
  }

  lemma AllTrackedUnlessOverflow(h: Heap, op: Op, max: nat)
    requires max > 0 && Newest(h, max) && Possible(h, op) && h.tracked == h.live
    ensures Step(h, op, max).tracked == Step(h, op, max).live <==> !Overflows(h, op, max)
  {
    if op.OpMalloc? && |h.live| == max {
      assert |Step(h, op, max).tracked| == max;
    }
  }

  predicate AllTracked(h: Heap, ops: seq<Op>, max: nat)
    requires max > 0
    decreases |ops|
  {
    h.tracked == h.live && (ops != [] ==> AllTracked(Step(h, ops[0], max), ops[1..], max))
  }

  predicate NeverOverflows(h: Heap, ops: seq<Op>, max: nat)
    requires max > 0
    decreases |ops|
  {
    ops != [] ==> !Overflows(h, ops[0], max) && NeverOverflows(Step(h, ops[0], max), ops[1..], max)
  }

  /** Over a run, all live allocations are tracked all the time exactly when never one is made while the
    * pool is full. */
  lemma {:induction false} AllLiveAreTracked(h: Heap, ops: seq<Op>, max: nat)
    requires max > 0 && Newest(h, max) && PossibleRun(h, ops, max) && h.tracked == h.live
    ensures AllTracked(h, ops, max) <==> NeverOverflows(h, ops, max)
    decreases |ops|
  {
    hide Newest, Step, Overflows;
    if ops != [] {
      StepKeepsNewest(h, ops[0], max);
      AllTrackedUnlessOverflow(h, ops[0], max);
      var t := Step(h, ops[0], max);
      if t.tracked == t.live {
        AllLiveAreTracked(t, ops[1..], max);
      }
    }
  }
}
