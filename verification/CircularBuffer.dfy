/** A byte ring buffer (components/util/src/memfault_circular_buffer.c). */
module CircularBuffer {
  import opened Bytes

  // ---- Rings as sequences ----

  /** The index `i` places after `start` in a ring of `n` places. */
  function Wrap(start: nat, i: nat, n: nat): nat {
    if start + i < n then start + i else if start + i < 2 * n then start + i - n else 0
  }

  lemma MultiplesOf(n: nat, q: int)
    ensures q >= 2 ==> n * q >= n * 2
    ensures q <= 0 ==> n * q <= 0
  {
  }

  lemma ModIsWrap(start: nat, i: nat, n: nat)
    requires start < n && i <= n
    ensures (start + i) % n == Wrap(start, i, n) < n
  {
    var q := (start + i) / n;
    assert start + i == n * q + (start + i) % n;
    MultiplesOf(n, q);
  }

  /** The `count` bytes of the ring from `start` on. */
  function Window(ring: seq<byte>, start: nat, count: nat): (s: seq<byte>)
    requires start < |ring| && count <= |ring|
    ensures |s| == count
    ensures forall i :: 0 <= i < count ==> s[i] == ring[Wrap(start, i, |ring|)]
  {
    if start + count <= |ring| then ring[start..start + count]
    else ring[start..] + ring[..start + count - |ring|]
  }

  /** The ring after `data` was copied to it from index `at` on, in one piece or in two. */
  function WrapWrite(ring: seq<byte>, at: nat, data: seq<byte>): (s: seq<byte>)
    requires at < |ring| && |data| <= |ring|
    ensures |s| == |ring|
  {
    if at + |data| <= |ring| then Splice(ring, at, data)
    else Splice(Splice(ring, at, data[..|ring| - at]), 0, data[|ring| - at..])
  }

  lemma WrapWriteAt(ring: seq<byte>, at: nat, data: seq<byte>, k: nat)
    requires at < |ring| && |data| <= |ring| && k < |ring|
    ensures WrapWrite(ring, at, data)[Wrap(at, k, |ring|)] == if k < |data| then data[k] else ring[Wrap(at, k, |ring|)]
  {
  }

  /** What writing `data` over the last `fromEnd` bytes, and beyond, makes of the contents. */
  function Overwrite(s: seq<byte>, fromEnd: nat, data: seq<byte>): (r: seq<byte>)
    requires fromEnd <= |s|
  {
    s[..|s| - fromEnd] + data + if |data| < fromEnd then s[|s| - fromEnd + |data|..] else []
  }

  /** Where the bytes of `data` end up, seen from the start of the contents. */
  lemma WrapWriteFrom(ring: seq<byte>, start: nat, keep: nat, data: seq<byte>, i: nat)
    requires start < |ring| && keep + |data| <= |ring| && keep <= |ring| && i < |ring|
    ensures Wrap(start, keep, |ring|) < |ring|
    ensures WrapWrite(ring, Wrap(start, keep, |ring|), data)[Wrap(start, i, |ring|)] ==
            if keep <= i < keep + |data| then data[i - keep] else ring[Wrap(start, i, |ring|)]
  {
    hide WrapWrite;
    var at := Wrap(start, keep, |ring|);
    var k := if i >= keep then i - keep else i + |ring| - keep;
    assert Wrap(start, i, |ring|) == Wrap(at, k, |ring|);
    WrapWriteAt(ring, at, data, k);
  }

  lemma WindowAfterWrite(ring: seq<byte>, start: nat, count: nat, fromEnd: nat, data: seq<byte>)
    requires start < |ring| && fromEnd <= count <= |ring|
    requires count - fromEnd + |data| <= |ring|
    ensures Wrap(start, count - fromEnd, |ring|) < |ring|
    ensures var grown := if |data| > fromEnd then count + |data| - fromEnd else count;
            Window(WrapWrite(ring, Wrap(start, count - fromEnd, |ring|), data), start, grown) ==
            Overwrite(Window(ring, start, count), fromEnd, data)
  {
    hide WrapWrite, Window, Wrap;
    var keep := count - fromEnd;
    WrapWriteFrom(ring, start, keep, data, 0);
    var after := WrapWrite(ring, Wrap(start, keep, |ring|), data);
    var grown := if |data| > fromEnd then count + |data| - fromEnd else count;
    var was := Window(ring, start, count);
    forall i | 0 <= i < grown
      ensures Window(after, start, grown)[i] == Overwrite(was, fromEnd, data)[i]
    {
      WrapWriteFrom(ring, start, keep, data, i);
      OverwriteAt(was, fromEnd, data, i);
    }
    OverwriteLength(was, fromEnd, data);
  }

  lemma OverwriteLength(s: seq<byte>, fromEnd: nat, data: seq<byte>)
    requires fromEnd <= |s|
    ensures |Overwrite(s, fromEnd, data)| == if |data| > fromEnd then |s| + |data| - fromEnd else |s|
  {
  }

  lemma OverwriteAt(s: seq<byte>, fromEnd: nat, data: seq<byte>, i: nat)
    requires fromEnd <= |s| && i < |Overwrite(s, fromEnd, data)|
    ensures var keep := |s| - fromEnd;
            if keep <= i < keep + |data| then Overwrite(s, fromEnd, data)[i] == data[i - keep]
            else i < |s| && Overwrite(s, fromEnd, data)[i] == s[i]
  {
  }

  class CircularBuffer {
    const storage: array<byte>
    var readOffset: nat
    var readSize: nat

    ghost predicate Valid()
      reads this
    {
      storage.Length > 0 && readOffset < storage.Length && readSize <= storage.Length
    }

    /** The bytes in the buffer, the oldest first. */
    ghost function Contents(): (s: seq<byte>)
      requires Valid()
      reads this, storage
      ensures |s| == readSize
    {
      Window(storage[..], readOffset, readSize)
    }

    /** A buffer cannot be set up in an empty storage area. */
    constructor (storage: array<byte>)
      requires storage.Length > 0
      modifies storage
      ensures Valid() && this.storage == storage && Contents() == []
    {
      this.storage, readOffset, readSize := storage, 0, 0;
      new;
      for i := 0 to storage.Length
        invariant readOffset == readSize == 0
      {
        storage[i] := 0;
      }
    }

    function WriteSize(): nat
      requires Valid()
      reads this
    {
      storage.Length - readSize
    }

    /** Copies `len` bytes of the contents, from `offset` on, to `data` at index `at`. */
    method Read(offset: nat, data: array<byte>, at: nat, len: nat) returns (ok: bool)
      requires Valid() && at + len <= data.Length && data != storage
      modifies data
      ensures ok == (offset + len <= |Contents()|)
      ensures data[..] == if ok then Splice(old(data[..]), at, Contents()[offset..offset + len]) else old(data[..])
    {
      hide Window, Splice;
      if readSize < offset + len {
        return false;
      }
      ModIsWrap(readOffset, offset, storage.Length);
      var readIdx := (readOffset + offset) % storage.Length;
      var contiguous := storage.Length - readIdx;
      var n := if contiguous > len then len else contiguous;
      var rest := len - n;
      ghost var was, first, second := data[..], storage[readIdx..readIdx + n], storage[..rest];
      WindowSlice(storage[..], readOffset, readSize, offset, len);
      assert first == storage[..][readIdx..readIdx + n] && second == storage[..][..rest];
      CopyInto(data, at, storage[readIdx..readIdx + n]);
      if rest != 0 {
        CopyInto(data, at + n, storage[..rest]);
        SpliceTwice(was, at, first, second);
      } else {
        assert first + second == first;
      }
      return true;
    }

    /** The largest piece of the storage that holds contents from `offset` on. */
    method GetReadPointer(offset: nat) returns (ok: bool, at: nat, len: nat)
      requires Valid()
      ensures ok == (offset <= |Contents()|)
      ensures ok ==>
                && at + len <= storage.Length && offset + len <= |Contents()|
                && storage[at..at + len] == Contents()[offset..offset + len]
                && (len == 0 ==> offset == |Contents()|)
                && len == Min(storage.Length - Wrap(readOffset, offset, storage.Length), |Contents()| - offset)
    {
      hide Window;
      if readSize < offset {
        return false, 0, 0;
      }
      ModIsWrap(readOffset, offset, storage.Length);
      ok := true;
      at := (readOffset + offset) % storage.Length;
      len := Min(storage.Length - at, readSize - offset);
      WindowSlice(storage[..], readOffset, readSize, offset, len);
      assert storage[..][at..at + len] + storage[..][..0] == storage[at..at + len];
    }

    /** Drops the oldest `len` bytes. */
    method Consume(len: nat) returns (ok: bool)
      requires Valid()
      modifies `readOffset, `readSize
      ensures Valid() && ok == (len <= |old(Contents())|)
      ensures Contents() == if ok then old(Contents())[len..] else old(Contents())
      ensures readOffset == if ok then Wrap(old(readOffset), len, storage.Length) else old(readOffset)
    {
      hide Window;
      if readSize < len {
        return false;
      }
      ModIsWrap(readOffset, len, storage.Length);
      WindowTail(storage[..], readOffset, readSize, len);
      readOffset := (readOffset + len) % storage.Length;
      readSize := readSize - len;
      return true;
    }

    /** Drops the newest `len` bytes. */
    method ConsumeFromEnd(len: nat) returns (ok: bool)
      requires Valid()
      modifies `readSize
      ensures Valid() && ok == (len <= |old(Contents())|)
      ensures Contents() == if ok then old(Contents())[..|old(Contents())| - len] else old(Contents())
    {
      if readSize < len {
        return false;
      }
      readSize := readSize - len;
      return true;
    }

    /** Writes `data` over the newest `offsetFromEnd` bytes, and beyond them as far as needed. */
    method WriteAtOffset(offsetFromEnd: nat, data: seq<byte>) returns (ok: bool)
      requires Valid()
      modifies `readSize, storage
      ensures Valid()
      ensures ok == (offsetFromEnd <= |old(Contents())| &&
                     |old(Contents())| - offsetFromEnd + |data| <= storage.Length)
      ensures Contents() == if ok then Overwrite(old(Contents()), offsetFromEnd, data) else old(Contents())
    {
      hide Window, Overwrite, Splice;
      if readSize < offsetFromEnd {
        return false;
      }
      var newBytes := if |data| > offsetFromEnd then |data| - offsetFromEnd else 0;
      if WriteSize() < newBytes {
        return false;
      }
      ModIsWrap(readOffset, readSize - offsetFromEnd, storage.Length);
      WindowAfterWrite(storage[..], readOffset, readSize, offsetFromEnd, data);
      var writeIdx := (readOffset + readSize - offsetFromEnd) % storage.Length;
      var contiguous := storage.Length - writeIdx;
      var n := if contiguous > |data| then |data| else contiguous;
      CopyInto(storage, writeIdx, data[..n]);
      var rest := |data| - n;
      if rest != 0 {
        CopyInto(storage, 0, data[n..]);
      }
      assert rest == 0 ==> data[..n] == data;
      readSize := readSize + newBytes;
      return true;
    }

    method Write(data: seq<byte>) returns (ok: bool)
      requires Valid()
      modifies `readSize, storage
      ensures Valid() && ok == (|old(Contents())| + |data| <= storage.Length)
      ensures Contents() == if ok then old(Contents()) + data else old(Contents())
    {
      hide Window, Overwrite;
      Append(Contents(), data);
      ok := WriteAtOffset(0, data);
    }

    /** The next piece for a callback, of at most `max` bytes. */
    method ReadPiece(offset: nat, max: nat) returns (piece: seq<byte>)
      requires Valid() && offset + max <= |Contents()|
      ensures |piece| == Min(max, storage.Length - Wrap(readOffset, offset, storage.Length))
      ensures piece == Contents()[offset..offset + |piece|]
    {
      hide Window;
      ModIsWrap(readOffset, offset, storage.Length);
      var found, at, n := GetReadPointer(offset);
      var bytesToRead := Min(max, n);
      SliceOfSlice(storage[..], at, storage[at..at + n], 0, bytesToRead);
      SliceOfSlice(Contents(), offset, storage[at..at + n], 0, bytesToRead);
      piece := storage[at..at + bytesToRead];
    }

    /** Hands the contents from `offset` on to a callback, piece by piece; returns the pieces. */
    method ReadWithCallback(offset: nat, len: nat) returns (ok: bool, pieces: seq<seq<byte>>)
      requires Valid()
      ensures ok == (offset + len <= |Contents()|)
      ensures ok ==> pieces == Pieces(Contents(), offset, len, storage.Length - Wrap(readOffset, offset, storage.Length))
      ensures !ok ==> pieces == []
    {
      hide Window;
      pieces := [];
      if readSize < offset + len {
        return false, pieces;
      }
      ghost var all := Contents();
      ghost var first := storage.Length - Wrap(readOffset, offset, storage.Length);
      var bytesLeft := len;
      while bytesLeft != 0
        invariant 0 <= bytesLeft <= len
        invariant || (bytesLeft == len && pieces == [])
                  || (bytesLeft == len - first && 0 < first < len && pieces == [all[offset..offset + first]])
                  || (bytesLeft == 0 && pieces == Pieces(all, offset, len, first))
        decreases bytesLeft
      {
        var dstOffset := len - bytesLeft;
        var piece := ReadPiece(offset + dstOffset, bytesLeft);
        pieces := pieces + [piece];
        bytesLeft := bytesLeft - |piece|;
      }
      ok := true;
    }
  }

  lemma Append(s: seq<byte>, data: seq<byte>)
    ensures Overwrite(s, 0, data) == s + data
  {
  }

  /** A callback gets what lies in one piece in the storage: at first at most `first` bytes, and then
    * the rest. */
  function Pieces(s: seq<byte>, offset: nat, len: nat, first: nat): (pieces: seq<seq<byte>>)
    requires offset + len <= |s|
  {
    if len == 0 then []
    else if len <= first then [s[offset..offset + len]]
    else [s[offset..offset + first], s[offset + first..offset + len]]
  }

  lemma WindowTail(ring: seq<byte>, start: nat, count: nat, n: nat)
    requires start < |ring| && n <= count <= |ring|
    ensures Wrap(start, n, |ring|) < |ring|
    ensures Window(ring, Wrap(start, n, |ring|), count - n) == Window(ring, start, count)[n..]
  {
    hide Window, Wrap;
    WrapTwice(start, n, 0, |ring|);
    forall i | 0 <= i < count - n
      ensures Window(ring, Wrap(start, n, |ring|), count - n)[i] == Window(ring, start, count)[n..][i]
    {
      WrapTwice(start, n, i, |ring|);
    }
  }

  lemma WrapTwice(start: nat, n: nat, i: nat, size: nat)
    requires start < size && n + i <= size
    ensures Wrap(start, n, size) < size && Wrap(Wrap(start, n, size), i, size) == Wrap(start, n + i, size)
  {
  }

  /** A slice of a window is one piece of the ring, or two. */
  lemma WindowSlice(ring: seq<byte>, start: nat, count: nat, offset: nat, len: nat)
    requires start < |ring| && offset + len <= count <= |ring|
    ensures var at := Wrap(start, offset, |ring|);
            at < |ring| &&
            var n := Min(|ring| - at, len);
            Window(ring, start, count)[offset..offset + len] == ring[at..at + n] + ring[..len - n]
  {
  }
}
