/** The pool of entries behind the heap statistics, and the list that its indices form
  * (components/core/src/memfault_heap_stats.c). */
module HeapPool {
  import opened Bytes
  import opened HeapStats

  datatype Entry = Entry(lr: nat, ptr: nat, size: nat, inUse: bool, next: nat)

  const UNUSED := Entry(0, 0, 0, false, 0)

  // ---- Pools as sequences ----

  ghost predicate Distinct(order: seq<nat>) {
    forall i, j :: 0 <= i < j < |order| ==> order[i] != order[j]
  }

  /** The entry that comes at place `k` of the list, or the end marker. */
  function At(order: seq<nat>, k: nat): nat {
    if k < |order| then order[k] else LIST_END
  }

  /** The entries of `order` are exactly the ones in use. */
  ghost predicate InUse(p: seq<Entry>, order: seq<nat>) {
    && (forall k :: 0 <= k < |order| ==> order[k] < |p| && p[order[k]].inUse)
    && (forall i :: 0 <= i < |p| && p[i].inUse ==> i in order)
  }

  /** The entry at place `k` of the list is linked to the one at place `k + 1`. */
  ghost predicate Follows(p: seq<Entry>, order: seq<nat>, k: nat) {
    k < |order| && order[k] < |p| && p[order[k]].next == At(order, k + 1)
  }

  /** Following the links from `head` visits the entries of `order` and ends. */
  ghost predicate Chained(p: seq<Entry>, head: nat, order: seq<nat>) {
    head == At(order, 0) && forall k :: 0 <= k < |order| ==> Follows(p, order, k)
  }

  ghost predicate Linked(p: seq<Entry>, head: nat, order: seq<nat>) {
    |p| < LIST_END && Distinct(order) && InUse(p, order) && Chained(p, head, order)
  }

  /** Entry `i` is in use and linked to `target`. */
  predicate LinksTo(p: seq<Entry>, i: nat, target: nat) {
    i < |p| && p[i].inUse && p[i].next == target
  }

  function Tracked(e: Entry): Allocation {
    Allocation(e.lr, e.ptr, e.size)
  }

  function Allocations(p: seq<Entry>, order: seq<nat>): (r: seq<Allocation>)
    requires forall k :: 0 <= k < |order| ==> order[k] < |p|
    ensures |r| == |order|
    ensures forall k :: 0 <= k < |order| ==> r[k] == Tracked(p[order[k]])
  {
    seq(|order|, k requires 0 <= k < |order| => Tracked(p[order[k]]))
  }

  /** Only the entry before it in the list is linked to an entry in use. */
  lemma LinksToPredecessor(p: seq<Entry>, head: nat, order: seq<nat>, k: nat, i: nat)
    requires Linked(p, head, order) && k < |order|
    ensures LinksTo(p, i, order[k]) <==> k > 0 && i == order[k - 1]
  {
    if LinksTo(p, i, order[k]) {
      var j :| 0 <= j < |order| && order[j] == i;
      assert Follows(p, order, j);
      assert j + 1 == k;
    } else if k > 0 {
      assert Follows(p, order, k - 1);
    }
  }

  /** Only the last entry of the list is linked to the end. */
  lemma LinksToEnd(p: seq<Entry>, head: nat, order: seq<nat>, i: nat)
    requires Linked(p, head, order)
    ensures LinksTo(p, i, LIST_END) <==> order != [] && i == order[|order| - 1]
  {
    if LinksTo(p, i, LIST_END) {
      var j :| 0 <= j < |order| && order[j] == i;
      assert Follows(p, order, j);
    } else if order != [] {
      assert Follows(p, order, |order| - 1);
    }
  }

  // ---- Taking an entry out ----

  /** The pool after the entry at place `k` was taken out of the list. */
  function Unlink(p: seq<Entry>, order: seq<nat>, k: nat): seq<Entry>
    requires k < |order| && forall j :: 0 <= j < |order| ==> order[j] < |p|
  {
    var idx := order[k];
    var q := if k > 0 then p[order[k - 1] := p[order[k - 1]].(next := p[idx].next)] else p;
    q[idx := p[idx].(inUse := false, next := LIST_END)]
  }

  lemma RemoveAtDistinct(order: seq<nat>, k: nat)
    requires Distinct(order) && k < |order|
    ensures Distinct(RemoveAt(order, k)) && forall j :: 0 <= j < |order| - 1 ==> RemoveAt(order, k)[j] != order[k]
  {
  }

  lemma UnlinkEntries(p: seq<Entry>, order: seq<nat>, k: nat)
    requires k < |order| && forall j :: 0 <= j < |order| ==> order[j] < |p|
    ensures |Unlink(p, order, k)| == |p|
    ensures forall i :: 0 <= i < |p| ==> (Unlink(p, order, k)[i].inUse <==> p[i].inUse && i != order[k])
  {
  }

  lemma UnlinkInUse(p: seq<Entry>, order: seq<nat>, k: nat)
    requires Distinct(order) && InUse(p, order) && k < |order|
    ensures Distinct(RemoveAt(order, k)) && InUse(Unlink(p, order, k), RemoveAt(order, k))
  {
    hide Distinct, Unlink;
    RemoveAtDistinct(order, k);
    UnlinkEntries(p, order, k);
    var q, o := Unlink(p, order, k), RemoveAt(order, k);
    forall i | 0 <= i < |q| && q[i].inUse
      ensures i in o
    {
      var j :| 0 <= j < |order| && order[j] == i;
      assert o[if j < k then j else j - 1] == i;
    }
  }

  lemma UnlinkChained(p: seq<Entry>, head: nat, order: seq<nat>, k: nat)
    requires Linked(p, head, order) && k < |order|
    ensures Chained(Unlink(p, order, k), At(RemoveAt(order, k), 0), RemoveAt(order, k))
  {
    var q, o := Unlink(p, order, k), RemoveAt(order, k);
    forall j | 0 <= j < |o|
      ensures Follows(q, o, j)
    {
      assert Follows(p, order, k);
      assert Follows(p, order, if j < k then j else j + 1);
    }
  }

  lemma UnlinkLinked(p: seq<Entry>, head: nat, order: seq<nat>, k: nat)
    requires Linked(p, head, order) && k < |order|
    ensures Linked(Unlink(p, order, k), At(RemoveAt(order, k), 0), RemoveAt(order, k))
    ensures Allocations(Unlink(p, order, k), RemoveAt(order, k)) == RemoveAt(Allocations(p, order), k)
  {
    UnlinkInUse(p, order, k);
    UnlinkChained(p, head, order, k);
    UnlinkKeepsOthers(p, order, k);
  }

  lemma UnlinkKeepsOthers(p: seq<Entry>, order: seq<nat>, k: nat)
    requires Distinct(order) && InUse(p, order) && k < |order|
    ensures Allocations(Unlink(p, order, k), RemoveAt(order, k)) == RemoveAt(Allocations(p, order), k)
  {
  }

  // ---- Putting an entry in ----

  lemma LinkFirstInUse(p: seq<Entry>, order: seq<nat>, idx: nat, e: Entry)
    requires Distinct(order) && InUse(p, order) && idx < |p| && !p[idx].inUse && e.inUse
    ensures Distinct([idx] + order) && InUse(p[idx := e], [idx] + order)
  {
    var q, o := p[idx := e], [idx] + order;
    assert idx !in order;
    forall i | 0 <= i < |q| && q[i].inUse
      ensures i in o
    {
      assert o[0] == idx;
    }
  }

  lemma LinkFirstFollows(p: seq<Entry>, order: seq<nat>, idx: nat, e: Entry, k: nat)
    requires Follows(p, order, k) && idx < |p| && order[k] != idx
    ensures Follows(p[idx := e], [idx] + order, k + 1)
  {
  }

  /** An entry that is not in use becomes the first of the list. */
  lemma LinkFirst(p: seq<Entry>, head: nat, order: seq<nat>, idx: nat, e: Entry)
    requires Linked(p, head, order) && idx < |p| && !p[idx].inUse
    requires e.inUse && e.next == head
    ensures Linked(p[idx := e], idx, [idx] + order)
    ensures Allocations(p[idx := e], [idx] + order) == [Tracked(e)] + Allocations(p, order)
  {
    hide Distinct;
    var q, o := p[idx := e], [idx] + order;
    LinkFirstInUse(p, order, idx, e);
    forall k | 0 <= k < |o|
      ensures Follows(q, o, k)
    {
      if k > 0 {
        LinkFirstFollows(p, order, idx, e, k - 1);
      }
    }
  }

  /** The pool after an entry was written over the oldest one and put first. */
  lemma ReplaceOldest(p: seq<Entry>, head: nat, order: seq<nat>, e: Entry, q: seq<Entry>)
    requires Linked(p, head, order) && order != []
    requires e.inUse && e.next == head
    requires var n, idx := |order|, order[|order| - 1];
             var end := if n > 1 then order[n - 2] else idx;
             var r := p[idx := e];
             q == r[end := r[end].(next := LIST_END)]
    ensures var n, idx := |order|, order[|order| - 1];
            && Linked(q, idx, [idx] + RemoveAt(order, n - 1))
            && Allocations(q, [idx] + RemoveAt(order, n - 1)) == [Tracked(e)] + RemoveAt(Allocations(p, order), n - 1)
  {
    var n := |order|;
    var idx, o := order[n - 1], RemoveAt(order, n - 1);
    var u := Unlink(p, order, n - 1);
    assert Follows(p, order, n - 1);
    UnlinkLinked(p, head, order, n - 1);
    var first := e.(next := At(o, 0));
    LinkFirst(u, At(o, 0), o, idx, first);
    assert q == u[idx := first];
  }

  // ---- How many entries are in use ----

  function Range(n: nat): (r: set<nat>)
    ensures |r| == n && forall i: nat :: i in r <==> i < n
  {
    if n == 0 then {} else Range(n - 1) + {n - 1}
  }

  ghost function Elements(order: seq<nat>): (r: set<nat>)
    ensures forall i: nat :: i in r <==> i in order
  {
    if order == [] then {} else Elements(order[1..]) + {order[0]}
  }

  lemma {:induction false} CountDistinct(order: seq<nat>)
    requires Distinct(order)
    ensures |Elements(order)| == |order|
  {
    if order != [] {
      CountDistinct(order[1..]);
      assert order[0] !in Elements(order[1..]);
    }
  }

  lemma Cardinality(a: set<nat>, b: set<nat>)
    requires a <= b
    ensures |a| <= |b|
    ensures |a| == |b| ==> a == b
  {
    assert |b| == |b - a| + |a| by {
      assert b == (b - a) + a;
    }
    if |a| == |b| {
      assert b - a == {};
    }
  }

  /** The list is as long as the pool exactly when every entry is in use. */
  lemma FullWhenAllInUse(p: seq<Entry>, head: nat, order: seq<nat>)
    requires Linked(p, head, order)
    ensures |order| <= |p|
    ensures |order| == |p| <==> forall i :: 0 <= i < |p| ==> p[i].inUse
  {
    hide Distinct, Chained, Elements, Range;
    var visited, all := Elements(order), Range(|p|);
    CountDistinct(order);
    Cardinality(visited, all);
    if |order| == |p| {
      forall i | 0 <= i < |p|
        ensures p[i].inUse
      {
        assert i in all;
        assert i in order;
      }
    }
    if forall i :: 0 <= i < |p| ==> p[i].inUse {
      assert visited == all;
    }
  }

  // ---- The two updates of the pool ----

  lemma Short(p: seq<Entry>, head: nat, order: seq<nat>)
    requires Linked(p, head, order)
    ensures |p| < LIST_END && forall k :: 0 <= k < |order| ==> order[k] < |p|
  {
  }

  /** While the new entry is first and the oldest was not yet cut off, only the entry that is to be the
    * last one is linked to `idx`. */
  lemma LinkedToOldest(p: seq<Entry>, head: nat, order: seq<nat>, e: Entry, q: seq<Entry>, i: nat)
    requires Linked(p, head, order) && order != [] && e.inUse && e.next == head
    requires q == p[order[|order| - 1] := e]
    ensures var n, idx := |order|, order[|order| - 1];
            LinksTo(q, i, idx) <==> i == if n > 1 then order[n - 2] else idx
  {
    LinksToPredecessor(p, head, order, |order| - 1, i);
  }

  /** The first entry that is linked to `target`. */
  ghost predicate IsPrevious(p: seq<Entry>, target: nat, index: nat) {
    && (index == LIST_END || LinksTo(p, index, target))
    && forall i: nat :: i < index ==> !LinksTo(p, i, target)
  }

  lemma Inserted(p: seq<Entry>, head: nat, order: seq<nat>, idx: nat, e: Entry, q: seq<Entry>, oldest: nat,
                 r: seq<Entry>)
    returns (next: seq<nat>)
    requires Linked(p, head, order) && idx < |p| && e.inUse && e.next == head
    requires p[idx].inUse ==> |order| == |p| && idx == order[|order| - 1]
    requires q == p[idx := e] && IsPrevious(q, idx, oldest)
    requires r == if oldest < |p| then q[oldest := q[oldest].(next := LIST_END)] else q
    ensures Linked(r, idx, next)
    ensures Allocations(r, next) == Malloc(Allocations(p, order), Tracked(e), |p|)
  {
    Short(p, head, order);
    FullWhenAllInUse(p, head, order);
    if p[idx].inUse {
      var n := |order|;
      next := [idx] + RemoveAt(order, n - 1);
      var end := if n > 1 then order[n - 2] else idx;
      LinkedToOldest(p, head, order, e, q, end);
      LinkedToOldest(p, head, order, e, q, oldest);
      assert oldest == end;
      ReplaceOldest(p, head, order, e, r);
      hide Linked;
      assert RemoveAt(Allocations(p, order), n - 1) == Allocations(p, order)[..n - 1];
    } else {
      next := [idx] + order;
      LinkFirst(p, head, order, idx, e);
      LinksToPredecessor(q, idx, next, 0, oldest);
    }
  }

  /** `after` is the new allocation, with its size if that is below 2^31, and behind it `before`, without the
    * oldest if there were `max` already. */
  ghost predicate IsTracked(before: seq<Allocation>, lr: nat, ptr: nat, size: nat, max: nat, after: seq<Allocation>) {
    && after != [] && after[0].lr == lr && after[0].ptr == ptr
    && after[0].size == (if size < 0x8000_0000 then size else size % 0x8000_0000)
    && after[1..] == if |before| < max then before else before[..Max(max - 1, 0)]
  }

  lemma MallocTracks(before: seq<Allocation>, lr: nat, ptr: nat, size: nat, max: nat)
    requires 0 < max
    ensures IsTracked(before, lr, ptr, size, max, Malloc(before, Allocation(lr, ptr, size % SIZE_LIMIT), max))
  {
  }

  /** `after` is `before` without an allocation with this pointer; the same if there is none. */
  ghost predicate IsFreed(before: seq<Allocation>, ptr: nat, after: seq<Allocation>) {
    if forall k :: 0 <= k < |before| ==> before[k].ptr != ptr then after == before
    else exists k :: 0 <= k < |before| && before[k].ptr == ptr && after == RemoveAt(before, k)
  }

  /** There is only one way to free an allocation if no two that are tracked have the same pointer. */
  lemma FreedIsFree(before: seq<Allocation>, ptr: nat, after: seq<Allocation>)
    requires IsFreed(before, ptr, after) && DistinctPointers(before)
    ensures after == Free(before, ptr)
  {
    var found := Find(before, ptr);
    if found < |before| {
      var k :| 0 <= k < |before| && before[k].ptr == ptr && after == RemoveAt(before, k);
      assert k == found;
    }
  }

  /** With entry `i` taken out of use, only the entry before it in the list is linked to it. */
  lemma PreviousIsBefore(p: seq<Entry>, head: nat, order: seq<nat>, k: nat, q: seq<Entry>, previous: nat)
    requires Linked(p, head, order) && k < |order| && order[k] < |p|
    requires q == p[order[k] := p[order[k]].(inUse := false)] && IsPrevious(q, order[k], previous)
    ensures previous == if k > 0 then order[k - 1] else LIST_END
  {
    LinksToPredecessor(p, head, order, k, previous);
    if k > 0 {
      LinksToPredecessor(p, head, order, k, order[k - 1]);
      assert LinksTo(q, order[k - 1], order[k]);
    }
  }

  lemma PlaceOf(p: seq<Entry>, head: nat, order: seq<nat>, i: nat) returns (k: nat)
    requires Linked(p, head, order) && i < |p| && p[i].inUse
    ensures k < |order| && order[k] == i && Follows(p, order, k)
    ensures forall j :: 0 <= j < |order| ==> order[j] < |p|
    ensures |p| < LIST_END
  {
    k :| 0 <= k < |order| && order[k] == i;
  }

  lemma Removed(p: seq<Entry>, head: nat, order: seq<nat>, ptr: nat, i: nat, q: seq<Entry>, previous: nat,
                head': nat, r: seq<Entry>)
    returns (next: seq<nat>)
    requires Linked(p, head, order)
    requires i < |p| && p[i].inUse && p[i].ptr == ptr
    requires q == p[i := p[i].(inUse := false)] && IsPrevious(q, i, previous)
    requires head' == if head == i then p[i].next else head
    requires r == (if previous < |p| then p[previous := p[previous].(next := p[i].next)] else p)
                  [i := p[i].(inUse := false, next := LIST_END)]
    ensures Linked(r, head', next)
    ensures IsFreed(Allocations(p, order), ptr, Allocations(r, next))
  {
    hide Linked, IsFreed, IsPrevious;
    var k := PlaceOf(p, head, order, i);
    next := RemoveAt(order, k);
    UnlinkLinked(p, head, order, k);
    HeadAfter(p, head, order, k, i);
    PreviousIsBefore(p, head, order, k, q, previous);
    assert r == Unlink(p, order, k);
    OneIsFreed(Allocations(p, order), ptr, k);
  }

  lemma HeadAfter(p: seq<Entry>, head: nat, order: seq<nat>, k: nat, i: nat)
    requires Linked(p, head, order) && k < |order| && order[k] == i && i < |p|
    ensures (if head == i then p[i].next else head) == At(RemoveAt(order, k), 0)
  {
    assert Follows(p, order, k);
  }

  lemma OneIsFreed(before: seq<Allocation>, ptr: nat, k: nat)
    requires k < |before| && before[k].ptr == ptr
    ensures IsFreed(before, ptr, RemoveAt(before, k))
  {
  }

  lemma NothingToRemove(p: seq<Entry>, head: nat, order: seq<nat>, ptr: nat)
    requires Linked(p, head, order)
    requires forall j :: 0 <= j < |p| ==> !(p[j].ptr == ptr && p[j].inUse)
    ensures IsFreed(Allocations(p, order), ptr, Allocations(p, order))
  {
    forall k | 0 <= k < |order|
      ensures Allocations(p, order)[k].ptr != ptr
    {
      assert p[order[k]].inUse;
    }
  }

  // ---- The pool ----

  class Pool {
    const pool: array<Entry>
    var head: nat
    var inUseBlockCount: nat
    var maxInUseBlockCount: nat
    ghost var order: seq<nat>

    ghost predicate Valid()
      reads this, pool
    {
      pool.Length > 0 && Linked(pool[..], head, order)
    }

    /** What the pool tracks, newest first. */
    ghost function Contents(): seq<Allocation>
      reads this, pool
      requires Valid()
    {
      Allocations(pool[..], order)
    }

    constructor (count: nat)
      requires 0 < count < LIST_END
      ensures Valid() && fresh(pool) && pool.Length == count
      ensures Contents() == [] && inUseBlockCount == maxInUseBlockCount == 0
    {
      pool := new Entry[count](i => UNUSED);
      head, inUseBlockCount, maxInUseBlockCount, order := LIST_END, 0, 0, [];
    }

    method Reset()
      requires Valid()
      modifies this, pool
      ensures Valid() && Contents() == [] && inUseBlockCount == maxInUseBlockCount == 0
    {
      head, inUseBlockCount, maxInUseBlockCount, order := LIST_END, 0, 0, [];
      forall i | 0 <= i < pool.Length {
        pool[i] := UNUSED;
      }
    }

    /** The first entry that is in use and linked to `target`, or the end marker. */
    method GetPreviousEntry(target: nat) returns (index: nat)
      requires pool.Length < LIST_END
      ensures IsPrevious(pool[..], target, index)
    {
      index := LIST_END;
      var i := 0;
      while i < pool.Length
        invariant 0 <= i <= pool.Length
        invariant index == LIST_END
        invariant forall j: nat :: j < i ==> !LinksTo(pool[..], j, target)
      {
        if pool[i].inUse && pool[i].next == target {
          index := i;
          return;
        }
        i := i + 1;
      }
    }

    /** An entry that was never used, else one that is no longer in use, else the oldest one. */
    method GetNewEntryIndex() returns (index: nat)
      requires Valid()
      ensures index < pool.Length
      ensures pool[index].inUse ==> |order| == pool.Length && index == order[|order| - 1]
      ensures pool[index].size != 0 || pool[index].inUse ==>
                forall i :: 0 <= i < pool.Length ==> pool[i].inUse || pool[i].size != 0
    {
      hide Linked, InUse, Chained, Distinct;
      var unused: nat := LIST_END;
      var i := 0;
      assert pool.Length < LIST_END by { Short(pool[..], head, order); }
      while i < pool.Length
        invariant 0 <= i <= pool.Length
        invariant unused == LIST_END || (unused < i && !pool[unused].inUse)
        invariant unused == LIST_END ==> forall j :: 0 <= j < i ==> pool[j].inUse
        invariant forall j :: 0 <= j < i ==> pool[j].inUse || pool[j].size != 0
      {
        if !pool[i].inUse {
          if pool[i].size == 0 {
            return i;
          }
          if unused == LIST_END {
            unused := i;
          }
        }
        i := i + 1;
      }
      if unused != LIST_END {
        return unused;
      }
      FullWhenAllInUse(pool[..], head, order);
      index := GetPreviousEntry(LIST_END);
      LinksToEnd(pool[..], head, order, index);
      LinksToEnd(pool[..], head, order, order[|order| - 1]);
    }

    method IncrementInUseBlockCount()
      modifies this`inUseBlockCount, this`maxInUseBlockCount
      ensures inUseBlockCount == (old(inUseBlockCount) + 1) % UINT32_LIMIT
      ensures maxInUseBlockCount == Max(old(maxInUseBlockCount), inUseBlockCount)
    {
      inUseBlockCount := (inUseBlockCount + 1) % UINT32_LIMIT;
      if inUseBlockCount > maxInUseBlockCount {
        maxInUseBlockCount := inUseBlockCount;
      }
    }

    method DecrementInUseBlockCount()
      modifies this`inUseBlockCount
      ensures inUseBlockCount == (old(inUseBlockCount) - 1) % UINT32_LIMIT
    {
      inUseBlockCount := (inUseBlockCount - 1) % UINT32_LIMIT;
    }

    /** Called after an allocation: it is tracked as the newest, in place of the oldest if need be. */
    method OnMalloc(lr: nat, ptr: nat, size: nat)
      requires Valid()
      modifies this, pool
      ensures Valid()
      ensures ptr == 0 ==> unchanged(this) && unchanged(pool)
      ensures ptr != 0 ==>
                && Contents() == Malloc(old(Contents()), Allocation(lr, ptr, size % SIZE_LIMIT), pool.Length)
                && IsTracked(old(Contents()), lr, ptr, size, pool.Length, Contents())
                && inUseBlockCount == (old(inUseBlockCount) + 1) % UINT32_LIMIT
                && maxInUseBlockCount == Max(old(maxInUseBlockCount), inUseBlockCount)
    {
      hide Linked, IsTracked, Malloc;
      if ptr != 0 {
        assert pool.Length < LIST_END by { Short(pool[..], head, order); }
        IncrementInUseBlockCount();
        var idx := GetNewEntryIndex();
        ghost var p, e := pool[..], Entry(lr, ptr, size % SIZE_LIMIT, true, head);
        pool[idx] := Entry(lr, ptr, size % SIZE_LIMIT, true, 0);
        pool[idx] := pool[idx].(next := head);
        head := idx;
        ghost var q := pool[..];
        assert q == p[idx := e];
        var oldest := GetPreviousEntry(idx);
        if oldest != LIST_END {
          pool[oldest] := pool[oldest].(next := LIST_END);
        }
        order := Inserted(p, e.next, order, idx, e, q, oldest, pool[..]);
        MallocTracks(old(Contents()), lr, ptr, size, pool.Length);
      }
    }

    /** Called when an allocation is freed: one that is tracked with this pointer goes, if there is any. */
    method OnFree(ptr: nat)
      requires Valid()
      modifies this, pool
      ensures Valid()
      ensures ptr == 0 ==> unchanged(this) && unchanged(pool)
      ensures ptr != 0 ==>
                && IsFreed(old(Contents()), ptr, Contents())
                && (DistinctPointers(old(Contents())) ==> Contents() == Free(old(Contents()), ptr))
                && inUseBlockCount == (old(inUseBlockCount) - 1) % UINT32_LIMIT
                && maxInUseBlockCount == old(maxInUseBlockCount)
    {
      hide Linked, IsFreed, DistinctPointers, Free;
      if ptr != 0 {
        DecrementInUseBlockCount();
        ghost var p, first := pool[..], head;
        assert pool.Length < LIST_END by { Short(pool[..], head, order); }
        var i := 0;
        while i < pool.Length
          invariant 0 <= i <= pool.Length
          invariant unchanged(pool) && unchanged(`head) && unchanged(`order) && unchanged(`maxInUseBlockCount)
          invariant inUseBlockCount == (old(inUseBlockCount) - 1) % UINT32_LIMIT
          invariant forall j :: 0 <= j < i ==> !(pool[j].ptr == ptr && pool[j].inUse)
        {
          if pool[i].ptr == ptr && pool[i].inUse {
            pool[i] := pool[i].(inUse := false);
            ghost var q := pool[..];
            assert q == p[i := p[i].(inUse := false)];
            var previous := GetPreviousEntry(i);
            if head == i {
              head := pool[i].next;
            }
            if previous != LIST_END {
              pool[previous] := pool[previous].(next := pool[i].next);
            }
            pool[i] := pool[i].(next := LIST_END);
            order := Removed(p, first, order, ptr, i, q, previous, head, pool[..]);
            if DistinctPointers(old(Contents())) {
              FreedIsFree(old(Contents()), ptr, Contents());
            }
            return;
          }
          i := i + 1;
        }
        NothingToRemove(p, head, order, ptr);
        if DistinctPointers(old(Contents())) {
          FreedIsFree(old(Contents()), ptr, Contents());
        }
      }
    }
  }
}
