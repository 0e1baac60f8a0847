/** Bytes, and the few helpers every component of the model shares. */
module Bytes {

  newtype byte = b: int | 0 <= b < 0x100

  const UINT32_LIMIT: int := 0x1_0000_0000
  const INT32_LIMIT: int := 0x8000_0000

  datatype Option<+T> = None | Some(value: T)

  function Min(a: int, b: int): (r: int)
    ensures r <= a && r <= b && (r == a || r == b)
  {
    if a <= b then a else b
  }

  function Max(a: int, b: int): (r: int)
    ensures r >= a && r >= b && (r == a || r == b)
  {
    if a >= b then a else b
  }

  /** `count` copies of `b`. */
  function Repeat(b: byte, count: nat): (s: seq<byte>)
    ensures |s| == count
    ensures forall i :: 0 <= i < count ==> s[i] == b
  {
    seq(count, _ => b)
  }

  /** `dst` with `src` copied over it from index `at` on: the effect of a C memcpy. */
  function Splice(dst: seq<byte>, at: nat, src: seq<byte>): (s: seq<byte>)
    requires at + |src| <= |dst|
    ensures |s| == |dst|
  {
    dst[..at] + src + dst[at + |src|..]
  }

  /** All parts, one behind the other. */
  function Flatten<T>(parts: seq<seq<T>>): seq<T> {
    if parts == [] then [] else parts[0] + Flatten(parts[1..])
  }

  lemma FlattenFew<T>(part: seq<T>)
    ensures Flatten<T>([]) == [] && Flatten([part]) == part
  {
    assert Flatten([part]) == part + Flatten([part][1..]);
  }

  lemma FlattenSnoc<T>(parts: seq<seq<T>>, part: seq<T>)
    ensures Flatten(parts + [part]) == Flatten(parts) + part
  {
    if parts == [] {
      assert Flatten([part]) == part + Flatten([part][1..]);
      assert parts + [part] == [part];
    } else {
      FlattenSnoc(parts[1..], part);
      assert (parts + [part])[1..] == parts[1..] + [part];
    }
  }

  /** The four bytes of a 32-bit word, the least significant one first. */
  function Word(v: nat): (s: seq<byte>)
    requires v < UINT32_LIMIT
    ensures |s| == 4
  {
    [(v % 0x100) as byte, (v / 0x100 % 0x100) as byte, (v / 0x1_0000 % 0x100) as byte, (v / 0x100_0000) as byte]
  }

  function FromWord(s: seq<byte>): (v: nat)
    requires |s| == 4
    ensures v < UINT32_LIMIT
  {
    s[0] as nat + s[1] as nat * 0x100 + s[2] as nat * 0x1_0000 + s[3] as nat * 0x100_0000
  }

  lemma WordRoundTrip(v: nat)
    requires v < UINT32_LIMIT
    ensures FromWord(Word(v)) == v
  {
    var a, b, c := v / 0x100, v / 0x1_0000, v / 0x100_0000;
    assert a / 0x100 == b && b / 0x100 == c;
  }

  lemma SplitTail(s: seq<byte>, p: nat, e: nat)
    requires p <= e <= |s|
    ensures s[p..] == s[p..e] + s[e..]
  {
  }

  lemma SplitRange(s: seq<byte>, a: nat, b: nat, c: nat)
    requires a <= b <= c <= |s|
    ensures s[a..c] == s[a..b] + s[b..c]
  {
  }

  lemma SliceOfSlice(all: seq<byte>, base: nat, part: seq<byte>, from: nat, n: nat)
    requires base + |part| <= |all| && all[base..base + |part|] == part
    requires from + n <= |part|
    ensures all[base + from..base + from + n] == part[from..from + n]
  {
    assert forall i :: 0 <= i < |part| ==> part[i] == all[base..base + |part|][i] == all[base + i];
  }

  lemma SamePart(a: seq<byte>, i: nat, b: seq<byte>, j: nat, len: nat, n: nat)
    requires i + len <= |a| && j + len <= |b| && a[i..i + len] == b[j..j + len] && n <= len
    ensures a[i..i + n] == b[j..j + n]
  {
    assert a[i..i + n] == a[i..i + len][..n];
    assert b[j..j + n] == b[j..j + len][..n];
  }

  lemma Regroup<T>(a: seq<T>, b: seq<T>, c: seq<T>)
    ensures a + (b + c) == a + b + c
  {
  }

  lemma SpliceSnoc(dst: seq<byte>, at: nat, src: seq<byte>, b: byte)
    requires at + |src| < |dst|
    ensures Splice(dst, at, src)[at + |src| := b] == Splice(dst, at, src + [b])
  {
  }

  lemma SpliceTwice(dst: seq<byte>, at: nat, a: seq<byte>, b: seq<byte>)
    requires at + |a| + |b| <= |dst|
    ensures Splice(Splice(dst, at, a), at + |a|, b) == Splice(dst, at, a + b)
  {
  }

  lemma SpliceAtStart(dst: seq<byte>, src: seq<byte>)
    requires |src| <= |dst|
    ensures Splice(dst, 0, src)[..|src|] == src
  {
  }

  lemma SpliceNothing(dst: seq<byte>, at: nat)
    requires at <= |dst|
    ensures Splice(dst, at, []) == dst
  {
  }

  /** `*p++ = b` for a pointer that has already written `done` from index `at` on. */
  method PutByte(dst: array<byte>, i: nat, b: byte, ghost was: seq<byte>, ghost at: nat, ghost done: seq<byte>)
    requires i == at + |done| < dst.Length == |was|
    requires dst[..] == Splice(was, at, done)
    modifies dst
    ensures dst[..] == Splice(was, at, done + [b])
  {
    ghost var before := dst[..];
    dst[i] := b;
    assert dst[..] == before[i := b];
    SpliceSnoc(was, at, done, b);
  }

  /** memcpy */
  method CopyInto(dst: array<byte>, at: nat, src: seq<byte>)
    requires at + |src| <= dst.Length
    modifies dst
    ensures dst[..] == Splice(old(dst[..]), at, src)
  {
    ghost var was := dst[..];
    for i := 0 to |src|
      invariant dst[..] == Splice(was, at, src[..i])
    {
      PutByte(dst, at + i, src[i], was, at, src[..i]);
      assert src[..i] + [src[i]] == src[..i + 1];
    }
    assert src[..|src|] == src;
  }
}
