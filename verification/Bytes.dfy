/** Byte sequences and the block operations that the memory devices share.
    Every operation is total: an out-of-range request leaves the memory alone (or yields nothing),
    and the device modules prove that their reachable states never make one. */
module Bytes {

  newtype byte = x: int | 0 <= x < 256

  function Min(a: int, b: int): (r: int) {
    if a < b then a else b
  }

  /** The bytes `m[lo..hi]`. */
  function Slice(m: seq<byte>, lo: int, hi: int): (r: seq<byte>) {
    if 0 <= lo <= hi <= |m| then m[lo..hi] else []
  }

  /** `m` with the bytes from `at` on overwritten by `bs`. */
  function Splice(m: seq<byte>, at: int, bs: seq<byte>): (r: seq<byte>)
    ensures |r| == |m|
  {
    if 0 <= at && at + |bs| <= |m| then m[..at] + bs + m[at + |bs|..] else m
  }

  /** Two adjacent splices are one. */
  lemma SpliceTwice(m: seq<byte>, at: nat, a: seq<byte>, b: seq<byte>)
    requires at + |a| + |b| <= |m|
    ensures Splice(Splice(m, at, a), at + |a|, b) == Splice(m, at, a + b)
  {
  }

  /** Two adjacent slices are one. */
  lemma SliceTwice(m: seq<byte>, at: nat, a: nat, b: nat)
    requires at + a + b <= |m|
    ensures Slice(m, at, at + a) + Slice(m, at + a, at + a + b) == Slice(m, at, at + a + b)
  {
  }

  /** `n` zero bytes. */
  function Zeros(n: nat): (r: seq<byte>)
    ensures |r| == n && forall i :: 0 <= i < n ==> r[i] == 0
  {
    seq(n, _ => 0)
  }

  /** All pieces of a cut-up byte sequence, joined again. */
  function Flatten(pieces: seq<seq<byte>>): (r: seq<byte>) {
    if pieces == [] then [] else pieces[0] + Flatten(pieces[1..])
  }

  lemma FlattenCons(piece: seq<byte>, pieces: seq<seq<byte>>)
    ensures Flatten([piece] + pieces) == piece + Flatten(pieces)
  {
    assert ([piece] + pieces)[1..] == pieces;
  }

  lemma DropFront<T>(a: seq<T>, b: seq<T>)
    ensures (a + b)[|a|..] == b && a <= a + b
  {
  }

  lemma Assoc<T>(a: seq<T>, b: seq<T>, c: seq<T>)
    ensures (a + b) + c == a + (b + c)
  {
  }
}
