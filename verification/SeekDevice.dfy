/** The seekable memory device of src/cdev/main.c. */
module SeekDevice {
  import opened Bytes
  import opened Options

  const HELLODEV_SIZE := 0x1000
  const MEM_CLEAR := 1
  const U32 := 0x1_0000_0000
  const EINVAL := 22
  const EFAULT := 14

  /** The memory and the file position. */
  datatype Dev = Dev(mem: seq<byte>, pos: int)

  /** `Write` carries the caller's buffer; if the copy fails it leaves `junk` behind. */
  datatype Op =
    | Read(size: nat, fault: bool)
    | Write(data: seq<byte>, junk: Option<seq<byte>>)
    | Seek(offset: int, orig: int)
    | Ioctl(cmd: nat)

  /** A signed 64-bit sum. */
  function Wrap64(x: int): (r: int) {
    (x + 0x8000_0000_0000_0000) % 0x1_0000_0000_0000_0000 - 0x8000_0000_0000_0000
  }

  /** How much a read or write moves: the size, cut to 32 bits, and then to what is left of the device. */
  function Count(pos: int, size: nat): (r: int) {
    Min(size % U32, HELLODEV_SIZE - pos)
  }

  /** `unsigned long p = *ppos; if (p >= HELLODEV_SIZE)`: a negative position is a huge one. */
  predicate PastEnd(pos: int) {
    pos < 0 || pos >= HELLODEV_SIZE
  }

  /** The device after an operation. */
  function Apply(d: Dev, op: Op): (r: Dev) {
    match op
    case Read(size, fault) =>
      if PastEnd(d.pos) || fault then d else d.(pos := d.pos + Count(d.pos, size))
    case Write(data, junk) =>
      var n := Count(d.pos, |data|);
      if PastEnd(d.pos) then d
      else if junk.Some? then
        if |junk.value| <= n then d.(mem := Splice(d.mem, d.pos, junk.value)) else d
      else Dev(Splice(d.mem, d.pos, Slice(data, 0, n)), d.pos + n)
    case Seek(offset, orig) =>
      if orig == 0 then
        if offset < 0 || offset % U32 > HELLODEV_SIZE then d else d.(pos := offset % U32)
      else if orig == 1 then
        if Wrap64(d.pos + offset) > HELLODEV_SIZE || Wrap64(d.pos + offset) < 0 then d else d.(pos := Wrap64(d.pos + offset))
      else d
    case Ioctl(cmd) =>
      if cmd == MEM_CLEAR then d.(mem := Zeros(HELLODEV_SIZE)) else d
  }

  /** What an operation returns: a count, a position, or a negative error. */
  function Returned(d: Dev, op: Op): (r: int) {
    match op
    case Read(size, fault) => if PastEnd(d.pos) then 0 else if fault then -EFAULT else Count(d.pos, size)
    case Write(data, junk) => if PastEnd(d.pos) then 0 else if junk.Some? then -EFAULT else Count(d.pos, |data|)
    case Seek(offset, orig) =>
      if orig == 0 then
        if offset < 0 || offset % U32 > HELLODEV_SIZE then -EINVAL else offset % U32
      else if orig == 1 then
        if Wrap64(d.pos + offset) > HELLODEV_SIZE || Wrap64(d.pos + offset) < 0 then -EINVAL else Wrap64(d.pos + offset)
      else -EINVAL
    case Ioctl(cmd) => if cmd == MEM_CLEAR then 0 else -EINVAL
  }

  /** The bytes that an operation delivers to its caller. */
  function Output(d: Dev, op: Op): (r: seq<byte>) {
    if op.Read? && !PastEnd(d.pos) && !op.fault then Slice(d.mem, d.pos, d.pos + Count(d.pos, op.size)) else []
  }

  function Run(d: Dev, ops: seq<Op>): (r: Dev)
    decreases ops
  {
    if ops == [] then d else Run(Apply(d, ops[0]), ops[1..])
  }

  function Outputs(d: Dev, ops: seq<Op>): (r: seq<byte>)
    decreases ops
  {
    if ops == [] then [] else Output(d, ops[0]) + Outputs(Apply(d, ops[0]), ops[1..])
  }

  predicate Valid(d: Dev) {
    |d.mem| == HELLODEV_SIZE && 0 <= d.pos <= HELLODEV_SIZE
  }

  lemma ApplyKeepsValid(d: Dev, op: Op)
    requires Valid(d)
    ensures Valid(Apply(d, op))
  {
  }

  /** In every run the position stays inside the device, whatever offsets and sizes are truncated or wrap. */
  lemma {:induction false} PositionStaysInside(d: Dev, ops: seq<Op>)
    requires Valid(d)
    ensures Valid(Run(d, ops))
    decreases ops
  {
    if ops != [] {
      ApplyKeepsValid(d, ops[0]);
      PositionStaysInside(Apply(d, ops[0]), ops[1..]);
    }
  }

  /** What a read is worth to its caller: past the end it returns 0; a failed copy returns -EFAULT and moves nothing; in
      all other cases it returns the number of bytes that it delivers, they are the ones at the position, and the position
      moves behind them. Below 2^32 they are as many as asked for, or all that are left. */
  lemma ReadReturns(d: Dev, size: nat, fault: bool)
    requires Valid(d)
    ensures
      var op := Read(size, fault);
      var ret, out, r := Returned(d, op), Output(d, op), Apply(d, op);
      && (d.pos == HELLODEV_SIZE ==> ret == 0 && out == [] && r == d)
      && (d.pos < HELLODEV_SIZE && fault ==> ret == -14 && out == [] && r == d)
      && (d.pos < HELLODEV_SIZE && !fault ==>
            && ret == |out| && d.pos + ret <= HELLODEV_SIZE && out == d.mem[d.pos..d.pos + ret] && r == Dev(d.mem, d.pos + ret)
            && (size < U32 ==> ret == if size < HELLODEV_SIZE - d.pos then size else HELLODEV_SIZE - d.pos))
  {
  }

  /** What a write is worth: past the end it returns 0; a failed copy returns -EFAULT, keeps the position and changes at
      most bytes that the call would have written; in all other cases it returns by how much the position moves, and the
      bytes there are the front of the caller's. */
  lemma WriteReturns(d: Dev, data: seq<byte>, junk: Option<seq<byte>>)
    requires Valid(d)
    ensures
      var op := Write(data, junk);
      var ret, r := Returned(d, op), Apply(d, op);
      var n := Min(|data| % U32, HELLODEV_SIZE - d.pos);
      && Output(d, op) == [] && |r.mem| == HELLODEV_SIZE && 0 <= n <= |data|
      && (d.pos == HELLODEV_SIZE ==> ret == 0 && r == d)
      && (d.pos < HELLODEV_SIZE && junk.Some? ==>
            ret == -14 && r.pos == d.pos && r.mem[..d.pos] == d.mem[..d.pos] && r.mem[d.pos + n..] == d.mem[d.pos + n..])
      && (d.pos < HELLODEV_SIZE && junk.None? ==>
            ret == n && r.pos == d.pos + n && r.mem == d.mem[..d.pos] + data[..n] + d.mem[d.pos + n..])
  {
  }

  lemma IoctlReturns(d: Dev, cmd: nat)
    requires Valid(d)
    ensures
      var ret, r := Returned(d, Ioctl(cmd)), Apply(d, Ioctl(cmd));
      if cmd == MEM_CLEAR then ret == 0 && r.pos == d.pos && |r.mem| == HELLODEV_SIZE && forall i :: 0 <= i < |r.mem| ==> r.mem[i] == 0
      else ret == -22 && r == d
  {
  }

  /** A seek that succeeds returns the new position, and one that fails returns -EINVAL and changes nothing. Only seeks
      from the start and from the position can succeed. */
  lemma SeekReturns(d: Dev, offset: int, orig: int)
    requires Valid(d)
    ensures
      var ret, r := Returned(d, Seek(offset, orig)), Apply(d, Seek(offset, orig));
      && (ret == -22 || ret >= 0) && r.mem == d.mem
      && (ret >= 0 ==> r.pos == ret && (orig == 0 || orig == 1))
      && (ret < 0 ==> r == d)
  {
  }

  /** From inside the device a relative seek that stays inside moves by the offset, and every other one fails: no
      wrapped sum is mistaken for a good one. */
  lemma RelativeSeekExact(d: Dev, offset: int)
    requires Valid(d) && -0x8000_0000_0000_0000 <= offset < 0x8000_0000_0000_0000
    ensures Returned(d, Seek(offset, 1)) >= 0 <==> 0 <= d.pos + offset <= HELLODEV_SIZE
    ensures 0 <= d.pos + offset <= HELLODEV_SIZE ==> Apply(d, Seek(offset, 1)).pos == d.pos + offset
  {
    if d.pos + offset < 0x8000_0000_0000_0000 {
      assert Wrap64(d.pos + offset) == d.pos + offset;
    } else {
      assert Wrap64(d.pos + offset) == d.pos + offset - 0x1_0000_0000_0000_0000;
    }
  }

  /** An absolute seek lands on the offset if and only if the offset is inside the device. Offsets of 2^32 and more are
      cut to 32 bits first, so that 2^32 + k lands on k. */
  lemma AbsoluteSeekExact(d: Dev, offset: int, k: int)
    requires Valid(d) && -0x8000_0000_0000_0000 <= offset < 0x8000_0000_0000_0000
    ensures
      var good := Returned(d, Seek(offset, 0)) >= 0;
      (good && Apply(d, Seek(offset, 0)).pos == offset <==> 0 <= offset <= HELLODEV_SIZE)
      && (!good ==> Apply(d, Seek(offset, 0)) == d)
    ensures 0 <= k <= HELLODEV_SIZE ==> Apply(d, Seek(U32 + k, 0)) == d.(pos := k) && Returned(d, Seek(U32 + k, 0)) == k
  {
    assert 0 <= k < U32 ==> (U32 + k) % U32 == k;
  }

  // ---------------------------------------------------------------- chunks

  /** The part of a chunk whose length survives the cut to 32 bits. */
  function Cut(chunk: seq<byte>): (r: seq<byte>)
    ensures |r| == |chunk| % U32 && (r == chunk <==> |chunk| < U32)
  {
    chunk[..|chunk| % U32]
  }

  function Writes(chunks: seq<seq<byte>>): (r: seq<Op>)
    ensures |r| == |chunks|
  {
    if chunks == [] then [] else [Write(chunks[0], None)] + Writes(chunks[1..])
  }

  function Reads(sizes: seq<nat>): (r: seq<Op>)
    ensures |r| == |sizes|
  {
    if sizes == [] then [] else [Read(sizes[0], false)] + Reads(sizes[1..])
  }

  function CutAll(chunks: seq<seq<byte>>): (r: seq<byte>) {
    if chunks == [] then [] else Cut(chunks[0]) + CutAll(chunks[1..])
  }

  function Total(sizes: seq<nat>): (r: nat) {
    if sizes == [] then 0 else sizes[0] % U32 + Total(sizes[1..])
  }

  /** As much of the bytes as the device takes from one position on. */
  function Head(bytes: seq<byte>, pos: int): (r: seq<byte>)
    requires pos <= HELLODEV_SIZE
  {
    bytes[..Min(|bytes|, HELLODEV_SIZE - pos)]
  }

  /** The device after these bytes have been stored at its position. */
  function Stored(d: Dev, bytes: seq<byte>): (r: Dev)
    requires Valid(d)
    ensures Valid(r)
  {
    Dev(Splice(d.mem, d.pos, Head(bytes, d.pos)), d.pos + |Head(bytes, d.pos)|)
  }

  lemma OneWrite(d: Dev, chunk: seq<byte>)
    requires Valid(d)
    ensures Apply(d, Write(chunk, None)) == Stored(d, Cut(chunk))
  {
    if d.pos < HELLODEV_SIZE {
      assert Slice(chunk, 0, Count(d.pos, |chunk|)) == Head(Cut(chunk), d.pos);
    } else {
      assert Head(Cut(chunk), d.pos) == [] && Splice(d.mem, d.pos, []) == d.mem;
    }
  }

  lemma HeadConcat(a: seq<byte>, b: seq<byte>, pos: int)
    requires 0 <= pos <= HELLODEV_SIZE
    ensures Head(a + b, pos) == Head(a, pos) + Head(b, pos + |Head(a, pos)|)
  {
  }

  /** Storing one piece after the other is storing them joined. */
  lemma StoredTwice(d: Dev, a: seq<byte>, b: seq<byte>)
    requires Valid(d)
    ensures Stored(Stored(d, a), b) == Stored(d, a + b)
  {
    HeadConcat(a, b, d.pos);
    SpliceTwice(d.mem, d.pos, Head(a, d.pos), Head(b, d.pos + |Head(a, d.pos)|));
  }

  lemma StoredNothing(d: Dev)
    requires Valid(d)
    ensures Stored(d, []) == d
  {
    assert Splice(d.mem, d.pos, []) == d.mem;
  }

  /** A run of writes stores the joined chunks as far as the device goes. */
  lemma {:induction false} WriteRun(d: Dev, chunks: seq<seq<byte>>)
    requires Valid(d)
    ensures Run(d, Writes(chunks)) == Stored(d, CutAll(chunks))
    decreases chunks
  {
    if chunks == [] {
      StoredNothing(d);
    } else {
      OneWrite(d, chunks[0]);
      WriteRun(Stored(d, Cut(chunks[0])), chunks[1..]);
      assert Writes(chunks)[1..] == Writes(chunks[1..]);
      StoredTwice(d, Cut(chunks[0]), CutAll(chunks[1..]));
    }
  }

  /** The memory from the position on, as far as `n` and the device go. */
  function Ahead(d: Dev, n: nat): (r: seq<byte>)
    requires Valid(d)
  {
    d.mem[d.pos..d.pos + Min(n, HELLODEV_SIZE - d.pos)]
  }

  /** The device after that much has been read. */
  function After(d: Dev, n: nat): (r: Dev)
    requires Valid(d)
    ensures Valid(r)
  {
    d.(pos := d.pos + |Ahead(d, n)|)
  }

  lemma OneRead(d: Dev, size: nat)
    requires Valid(d)
    ensures Output(d, Read(size, false)) == Ahead(d, size % U32) && Apply(d, Read(size, false)) == After(d, size % U32)
  {
  }

  lemma AheadTwice(d: Dev, n: nat, m: nat)
    requires Valid(d)
    ensures Ahead(d, n) + Ahead(After(d, n), m) == Ahead(d, n + m)
  {
  }

  lemma OutputsOfReads(d: Dev, sizes: seq<nat>)
    requires sizes != []
    ensures
      var op := Read(sizes[0], false);
      Outputs(d, Reads(sizes)) == Output(d, op) + Outputs(Apply(d, op), Reads(sizes[1..]))
  {
    assert Reads(sizes)[1..] == Reads(sizes[1..]);
  }

  /** A run of reads delivers the memory from the position on, as far as the sizes and the device go. */
  lemma {:induction false} ReadRun(d: Dev, sizes: seq<nat>)
    requires Valid(d)
    ensures Outputs(d, Reads(sizes)) == Ahead(d, Total(sizes))
    decreases sizes
  {
    if sizes != [] {
      OutputsOfReads(d, sizes);
      OneRead(d, sizes[0]);
      ReadRun(After(d, sizes[0] % U32), sizes[1..]);
      AheadTwice(d, sizes[0] % U32, Total(sizes[1..]));
    }
  }

  lemma Readback(m: seq<byte>, written: seq<byte>, n: nat)
    requires |written| <= |m| && n <= |m|
    ensures Splice(m, 0, written)[0..n] == (written + m[|written|..])[..n]
    ensures n >= |written| ==> (written + m[|written|..])[..n][..|written|] == written
  {
    assert Splice(m, 0, written) == written + m[|written|..];
  }

  /** What a run of reads delivers after a run of writes from position 0 and a seek back. */
  function ReadBack(d: Dev, chunks: seq<seq<byte>>, sizes: seq<nat>): (r: seq<byte>) {
    Outputs(Apply(Run(d, Writes(chunks)), Seek(0, 0)), Reads(sizes))
  }

  /** Write any chunks from position 0, seek back, read in any other chunks: the reads deliver the first bytes of what
      was written, then what was in the memory before, as far as their sizes and the device go. Chunks and sizes of
      2^32 and more count as what the code cuts them to. */
  lemma WriteSeekRead(d: Dev, chunks: seq<seq<byte>>, sizes: seq<nat>)
    requires Valid(d) && d.pos == 0
    ensures
      var written := Head(CutAll(chunks), 0);
      var got := ReadBack(d, chunks, sizes);
      && |got| == Min(Total(sizes), HELLODEV_SIZE)
      && got == (written + d.mem[|written|..])[..|got|]
      && (|got| >= |written| ==> got[..|written|] == written)
  {
    WriteRun(d, chunks);
    ReadRun(Apply(Run(d, Writes(chunks)), Seek(0, 0)), sizes);
    Readback(d.mem, Head(CutAll(chunks), 0), Min(Total(sizes), HELLODEV_SIZE));
  }

  ghost predicate AllShort(chunks: seq<seq<byte>>) {
    forall i :: 0 <= i < |chunks| ==> |chunks[i]| < U32
  }

  lemma {:induction false} CutAllShorter(chunks: seq<seq<byte>>)
    ensures |CutAll(chunks)| <= |Flatten(chunks)|
  {
    if chunks != [] { CutAllShorter(chunks[1..]); }
  }

  /** The cut loses nothing if and only if every chunk is shorter than 2^32. */
  lemma {:induction false} CutsNothing(chunks: seq<seq<byte>>)
    ensures CutAll(chunks) == Flatten(chunks) <==> AllShort(chunks)
  {
    if chunks != [] {
      CutsNothing(chunks[1..]);
      CutAllShorter(chunks[1..]);
      assert AllShort(chunks) <==> |chunks[0]| < U32 && AllShort(chunks[1..]) by {
        assert forall i :: 0 < i < |chunks| ==> chunks[i] == chunks[1..][i - 1];
      }
      assert |Flatten(chunks)| == |chunks[0]| + |Flatten(chunks[1..])|;
      if CutAll(chunks) == Flatten(chunks) {
        assert Cut(chunks[0]) == CutAll(chunks)[..|Cut(chunks[0])|];
        assert CutAll(chunks[1..]) == CutAll(chunks)[|Cut(chunks[0])|..];
      }
    }
  }

  function Sum(sizes: seq<nat>): (r: nat) {
    if sizes == [] then 0 else sizes[0] + Sum(sizes[1..])
  }

  lemma {:induction false} TotalIsSum(sizes: seq<nat>)
    requires forall i :: 0 <= i < |sizes| ==> sizes[i] < U32
    ensures Total(sizes) == Sum(sizes)
  {
    if sizes != [] { TotalIsSum(sizes[1..]); }
  }

  /** The plain statement, for chunks and sizes below 2^32: the first min(total, 4096) bytes written come back, and
      reads that ask for exactly that many get exactly those. */
  lemma WrittenComesBack(d: Dev, chunks: seq<seq<byte>>, sizes: seq<nat>)
    requires Valid(d) && d.pos == 0
    requires AllShort(chunks) && forall i :: 0 <= i < |sizes| ==> sizes[i] < U32
    ensures
      var n := Min(|Flatten(chunks)|, HELLODEV_SIZE);
      var got := ReadBack(d, chunks, sizes);
      && (Sum(sizes) >= n ==> |got| >= n && got[..n] == Flatten(chunks)[..n])
      && (Sum(sizes) == n ==> got == Flatten(chunks)[..n])
  {
    CutsNothing(chunks);
    TotalIsSum(sizes);
    WriteSeekRead(d, chunks, sizes);
    var got := ReadBack(d, chunks, sizes);
    assert Sum(sizes) == Min(|Flatten(chunks)|, HELLODEV_SIZE) ==> got[..|got|] == got;
  }

  // ---------------------------------------------------------------- the driver

  class HelloDev {
    const mem: array<byte>
    var pos: int

    ghost predicate Ok()
      reads this, mem
    {
      Valid(Model())
    }

    ghost function Model(): (d: Dev)
      reads this, mem
    {
      Dev(mem[..], pos)
    }

    constructor ()
      ensures Ok() && fresh(mem) && Model() == Dev(Zeros(HELLODEV_SIZE), 0)
    {
      mem := new byte[HELLODEV_SIZE](_ => 0);
      pos := 0;
    }

    /** hello_read. */
    method ReadBytes(size: nat, fault: bool) returns (ret: int, out: seq<byte>)
      requires Ok()
      modifies this`pos
      ensures Ok() && Model() == Apply(old(Model()), Read(size, fault))
      ensures ret == Returned(old(Model()), Read(size, fault)) && out == Output(old(Model()), Read(size, fault))
    {
      var p := pos;
      var count := size % U32;
      if p >= HELLODEV_SIZE { return 0, []; }
      if count > HELLODEV_SIZE - p { count := HELLODEV_SIZE - p; }
      if fault { return -EFAULT, []; }
      out := mem[p..p + count];
      assert out == mem[..][p..p + count];
      pos := p + count;
      ret := count;
    }

    /** copy_from_user of these bytes. */
    method CopyIn(at: nat, bytes: seq<byte>)
      requires at + |bytes| <= mem.Length
      modifies mem
      ensures mem[..] == Splice(old(mem[..]), at, bytes)
    {
      for k := 0 to |bytes|
        invariant forall i :: at <= i < at + k ==> mem[i] == bytes[i - at]
        invariant forall i :: 0 <= i < mem.Length && !(at <= i < at + k) ==> mem[i] == old(mem[i])
      {
        mem[at + k] := bytes[k];
      }
    }

    /** hello_write. A failing copy may leave up to `count` bytes behind. */
    method WriteBytes(data: seq<byte>, junk: Option<seq<byte>>) returns (ret: int)
      requires Ok()
      modifies this`pos, mem
      ensures Ok() && Model() == Apply(old(Model()), Write(data, junk)) && ret == Returned(old(Model()), Write(data, junk))
    {
      var p := pos;
      var count := |data| % U32;
      if p >= HELLODEV_SIZE { return 0; }
      if count > HELLODEV_SIZE - p { count := HELLODEV_SIZE - p; }
      if junk.Some? {
        if |junk.value| <= count { CopyIn(p, junk.value); }
        return -EFAULT;
      }
      CopyIn(p, data[..count]);
      pos := p + count;
      ret := count;
    }

    /** hello_llseek. */
    method Llseek(offset: int, orig: int) returns (ret: int)
      requires Ok()
      modifies this`pos
      ensures Ok() && Model() == Apply(old(Model()), Seek(offset, orig)) && ret == Returned(old(Model()), Seek(offset, orig))
    {
      if orig == 0 {
        if offset < 0 { return -EINVAL; }
        if offset % U32 > HELLODEV_SIZE { return -EINVAL; }
        pos := offset % U32;
        ret := pos;
      } else if orig == 1 {
        if Wrap64(pos + offset) > HELLODEV_SIZE { return -EINVAL; }
        if Wrap64(pos + offset) < 0 { return -EINVAL; }
        pos := Wrap64(pos + offset);
        ret := pos;
      } else {
        ret := -EINVAL;
      }
    }

    /** hello_ioctl. */
    method IoctlCall(cmd: nat) returns (ret: int)
      requires Ok()
      modifies mem
      ensures Ok() && Model() == Apply(old(Model()), Ioctl(cmd)) && ret == Returned(old(Model()), Ioctl(cmd))
    {
      if cmd != MEM_CLEAR { return -EINVAL; }
      for i := 0 to mem.Length
        invariant forall k :: 0 <= k < i ==> mem[k] == 0
      {
        mem[i] := 0;
      }
      assert mem[..] == Zeros(HELLODEV_SIZE);
      ret := 0;
    }
  }
}
