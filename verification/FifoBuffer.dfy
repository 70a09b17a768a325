/** The byte moves that src/globalfifo/main.c makes on its buffer in place, each proved to be the
    sequence operation that the step relation of GlobalFifo uses. */
module FifoBuffer {
  import opened Options
  import opened Bytes
  import opened GlobalFifo

  /** The first `k` bytes have come down. The one that comes next has not been overwritten yet. */
  lemma MovedNext(was: seq<byte>, now: seq<byte>, dst: nat, src: nat, k: nat)
    requires dst <= src && src + k < |was| && now == was[..dst] + was[src..src + k] + was[dst + k..]
    ensures |now| == |was| && now[src + k] == was[src + k]
    ensures now[dst + k := was[src + k]] == was[..dst] + was[src..src + k + 1] + was[dst + k + 1..]
  {
    assert was[src..src + k + 1] == was[src..src + k] + [was[src + k]];
    assert was[dst + k..] == [was[dst + k]] + was[dst + k + 1..];
  }

  /** memcpy inside one array, byte by byte in ascending order. Source and destination may overlap, but the
      destination does not start after the source. */
  method CopyAscending(a: array<byte>, dst: nat, src: nat, n: nat)
    requires dst <= src && src + n <= a.Length
    modifies a
    ensures a[..] == old(a[..dst] + a[src..src + n] + a[dst + n..])
  {
    ghost var was := a[..];
    var k := 0;
    while k < n
      invariant 0 <= k <= n
      invariant a[..] == was[..dst] + was[src..src + k] + was[dst + k..]
    {
      MovedNext(was, a[..], dst, src, k);
      ghost var now := a[..];
      a[dst + k] := a[src + k];
      assert a[..] == now[dst + k := now[src + k]];
      k := k + 1;
    }
  }

  lemma Moved(was: seq<byte>, now: seq<byte>, n: nat, len: nat)
    requires n <= len <= |was| && now == was[..0] + was[n..len] + was[len - n..]
    ensures now == Shifted(was, n, len) && was[..n] + now[..len - n] == was[..len]
  {
    assert was[..0] + was[n..len] == was[n..len];
    assert now[..len - n] == was[n..len];
    assert was[..n] + was[n..len] == was[..len];
  }

  class HelloDev {
    const mem: array<byte>
    var currentLen: nat

    ghost predicate Valid()
      reads this
    {
      mem.Length == HELLODEV_SIZE && currentLen <= HELLODEV_SIZE
    }

    constructor ()
      ensures Valid() && fresh(mem) && mem[..] == Zeros(HELLODEV_SIZE) && currentLen == 0
    {
      mem := new byte[HELLODEV_SIZE](_ => 0);
      currentLen := 0;
    }

    /** Lines 90-98 when the copy to user space succeeds. */
    method TakeFront(count: nat) returns (data: seq<byte>)
      requires Valid()
      modifies this`currentLen, mem
      ensures Valid()
      ensures |data| == Min(count, old(currentLen)) && currentLen == old(currentLen) - |data|
      ensures data == Slice(old(mem[..]), 0, |data|)
      ensures mem[..] == Shifted(old(mem[..]), |data|, old(currentLen))
      ensures data + mem[..currentLen] == old(mem[..currentLen])
    {
      var n := Min(count, currentLen);
      data := mem[..n];
      assert data == mem[..][..n];
      ghost var was := mem[..];
      CopyAscending(mem, 0, n, currentLen - n);
      Moved(was, mem[..], n, currentLen);
      currentLen := currentLen - n;
    }

    /** Lines 142-149 when the copy from user space succeeds. */
    method AppendBack(data: seq<byte>) returns (n: nat)
      requires Valid()
      modifies this`currentLen, mem
      ensures Valid()
      ensures n == Min(|data|, HELLODEV_SIZE - old(currentLen)) && currentLen == old(currentLen) + n
      ensures mem[..] == Splice(old(mem[..]), old(currentLen), data[..n])
      ensures mem[..currentLen] == old(mem[..currentLen]) + data[..n]
    {
      n := Min(|data|, HELLODEV_SIZE - currentLen);
      var at := currentLen;
      for k := 0 to n
        invariant currentLen == at
        invariant forall i :: at <= i < at + k ==> mem[i] == data[i - at]
        invariant forall i :: 0 <= i < mem.Length && !(at <= i < at + k) ==> mem[i] == old(mem[i])
      {
        mem[at + k] := data[k];
      }
      currentLen := at + n;
    }

    /** Line 51. */
    method ClearAll()
      requires Valid()
      modifies mem
      ensures mem[..] == Zeros(HELLODEV_SIZE)
    {
      for k := 0 to mem.Length
        invariant forall i :: 0 <= i < k ==> mem[i] == 0
      {
        mem[k] := 0;
      }
    }
  }
}
