/** The RAM block device of src/bdev/main.c: requests cut into segments over one flat byte array. */
module RamBlock {
  import opened Bytes

  const RAMBLOCK_SIZE := 16 * 1024 * 1024
  const SECTOR_SIZE := 512
  const CAPACITY := RAMBLOCK_SIZE / SECTOR_SIZE
  const U32 := 0x1_0000_0000
  const U64 := 0x1_0000_0000_0000_0000

  datatype ReqOp = Read | Write | Other

  /** A request: where it starts, how many sectors it covers, and the buffers of its segments. */
  datatype Request = Request(start: nat, sectors: nat, op: ReqOp, passthrough: bool, segs: seq<seq<byte>>)

  /** `Escaped`: a memcpy would leave the device; the run is cut off there. */
  datatype Status = Ok | IoErr | Escaped

  /** Status, device contents and segment buffers afterwards. */
  datatype Outcome = Outcome(status: Status, data: seq<byte>, segs: seq<seq<byte>>)

  /** The capacity check, with the 64-bit sum of the source. */
  predicate Passes(r: Request) {
    (r.start + r.sectors) % U64 <= CAPACITY && !r.passthrough
  }

  /** `unsigned int offset = start_sector * __SECTOR_SIZE`. */
  function Offset(r: Request): (o: nat)
    ensures o < U32
  {
    (r.start * SECTOR_SIZE) % U32
  }

  /** A 32-bit sum. */
  function Wrap32(x: nat): (r: nat)
    ensures r < U32 && (x < U32 ==> r == x)
  {
    x % U32
  }

  /** The check before each segment, with the 32-bit sum of the source. */
  predicate SegmentFits(offset: nat, length: nat) {
    Wrap32(offset + length) <= RAMBLOCK_SIZE
  }

  /** The buffer of a segment, and the device, after an in-range segment. */
  function Filled(data: seq<byte>, op: ReqOp, offset: nat, seg: seq<byte>): (r: seq<byte>) {
    if op.Read? then Slice(data, offset, offset + |seg|) else seg
  }

  function Stored(data: seq<byte>, op: ReqOp, offset: nat, bytes: seq<byte>): (r: seq<byte>) {
    if op.Write? then Splice(data, offset, bytes) else data
  }

  /** The copy of a segment would reach outside the device. */
  predicate Escapes(op: ReqOp, offset: nat, length: nat) {
    !op.Other? && offset + length > RAMBLOCK_SIZE
  }

  /** The segment loop from one offset on. */
  function Segments(data: seq<byte>, op: ReqOp, offset: nat, segs: seq<seq<byte>>): (o: Outcome)
    decreases segs
  {
    if segs == [] then Outcome(Ok, data, [])
    else if !SegmentFits(offset, |segs[0]|) then Outcome(IoErr, data, segs)
    else if Escapes(op, offset, |segs[0]|) then Outcome(Escaped, data, segs)
    else
      var rest := Segments(Stored(data, op, offset, segs[0]), op, Wrap32(offset + |segs[0]|), segs[1..]);
      Outcome(rest.status, rest.data, [Filled(data, op, offset, segs[0])] + rest.segs)
  }

  /** ramblock_process_request. */
  function Process(data: seq<byte>, r: Request): (o: Outcome) {
    if !Passes(r) then Outcome(IoErr, data, r.segs) else Segments(data, r.op, Offset(r), r.segs)
  }

  // ---------------------------------------------------------------- well-formed requests

  /** What the block layer builds: the segments cover exactly the sectors, and the 64-bit sum of the check does not wrap. */
  predicate WellFormed(r: Request) {
    |Flatten(r.segs)| == r.sectors * SECTOR_SIZE && r.start + r.sectors < U64
  }

  function Address(r: Request): (a: nat) {
    r.start * SECTOR_SIZE
  }

  /** In range the 32-bit sums are the sums themselves. */
  lemma NoWrap(offset: nat, length: nat)
    requires offset + length <= RAMBLOCK_SIZE
    ensures SegmentFits(offset, length) && Wrap32(offset + length) == offset + length
  {
  }

  lemma OneSegment(data: seq<byte>, op: ReqOp, offset: nat, segs: seq<seq<byte>>)
    requires segs != [] && offset + |segs[0]| <= RAMBLOCK_SIZE
    ensures
      var rest := Segments(Stored(data, op, offset, segs[0]), op, offset + |segs[0]|, segs[1..]);
      Segments(data, op, offset, segs) == Outcome(rest.status, rest.data, [Filled(data, op, offset, segs[0])] + rest.segs)
  {
    NoWrap(offset, |segs[0]|);
  }

  /** The loop, when everything is in range: one splice of the joined segments, or one slice. */
  lemma {:induction false} SegmentsInRange(data: seq<byte>, op: ReqOp, offset: nat, segs: seq<seq<byte>>)
    requires |data| == RAMBLOCK_SIZE && offset + |Flatten(segs)| <= RAMBLOCK_SIZE
    ensures
      var o := Segments(data, op, offset, segs);
      var all := Flatten(segs);
      o.status == Ok && o.data == Stored(data, op, offset, all) && Flatten(o.segs) == Filled(data, op, offset, all)
    decreases segs
  {
    if segs == [] {
      NoTransfer(data, op, offset);
    } else {
      var seg, rest := segs[0], Flatten(segs[1..]);
      assert Flatten(segs) == seg + rest;
      var data' := Stored(data, op, offset, seg);
      SegmentsInRange(data', op, offset + |seg|, segs[1..]);
      OneSegment(data, op, offset, segs);
      InRangeStep(data, op, offset, seg, rest, Segments(data', op, offset + |seg|, segs[1..]));
    }
  }

  /** One segment and then the others, done as `o` says, are one transfer. */
  lemma InRangeStep(data: seq<byte>, op: ReqOp, offset: nat, seg: seq<byte>, rest: seq<byte>, o: Outcome)
    requires offset + |seg| + |rest| <= |data|
    requires o.data == Stored(Stored(data, op, offset, seg), op, offset + |seg|, rest)
    requires Flatten(o.segs) == Filled(Stored(data, op, offset, seg), op, offset + |seg|, rest)
    ensures o.data == Stored(data, op, offset, seg + rest)
    ensures Flatten([Filled(data, op, offset, seg)] + o.segs) == Filled(data, op, offset, seg + rest)
  {
    FlattenCons(Filled(data, op, offset, seg), o.segs);
    TransferTwice(data, op, offset, seg, rest);
  }

  lemma NoTransfer(data: seq<byte>, op: ReqOp, offset: nat)
    ensures Stored(data, op, offset, []) == data && Filled(data, op, offset, []) == []
  {
  }

  /** Two adjacent transfers are one. */
  lemma TransferTwice(data: seq<byte>, op: ReqOp, offset: nat, a: seq<byte>, b: seq<byte>)
    requires offset + |a| + |b| <= |data|
    ensures
      var mid := Stored(data, op, offset, a);
      && Stored(mid, op, offset + |a|, b) == Stored(data, op, offset, a + b)
      && Filled(data, op, offset, a) + Filled(mid, op, offset + |a|, b) == Filled(data, op, offset, a + b)
  {
    if op.Write? { SpliceTwice(data, offset, a, b); }
    if op.Read? { SliceTwice(data, offset, |a|, |b|); }
  }

  /** The request is inside the device and for the file system. */
  predicate Accepted(r: Request) {
    r.start + r.sectors <= CAPACITY && !r.passthrough
  }

  lemma InsideDevice(r: Request)
    requires WellFormed(r)
    ensures Passes(r) <==> Accepted(r)
    ensures Accepted(r) ==> Offset(r) == Address(r) && Address(r) + |Flatten(r.segs)| <= RAMBLOCK_SIZE
  {
    assert (r.start + r.sectors) % U64 == r.start + r.sectors;
  }

  /** A well-formed request is carried out fully if it is inside the device: the offset never wraps, no segment check
      fires, a write is one splice at its byte address and a read is one slice. Otherwise it leaves everything alone. */
  lemma AllOrNothing(data: seq<byte>, r: Request)
    requires |data| == RAMBLOCK_SIZE && WellFormed(r)
    ensures Accepted(r) ==> Address(r) + |Flatten(r.segs)| <= RAMBLOCK_SIZE
    ensures
      var o := Process(data, r);
      var at, n := r.start * SECTOR_SIZE, r.sectors * SECTOR_SIZE;
      if r.start + r.sectors <= CAPACITY && !r.passthrough then
        && at + n <= RAMBLOCK_SIZE && o.status == Ok
        && (r.op.Write? ==> o.data == data[..at] + Flatten(r.segs) + data[at + n..])
        && (!r.op.Write? ==> o.data == data)
        && (r.op.Read? ==> Flatten(o.segs) == data[at..at + n])
        && (!r.op.Read? ==> o.segs == r.segs)
      else o == Outcome(IoErr, data, r.segs)
  {
    InsideDevice(r);
    if Accepted(r) {
      SegmentsInRange(data, r.op, Address(r), r.segs);
    }
    BuffersKept(data, r);
  }

  lemma AcceptedWrite(data: seq<byte>, r: Request)
    requires |data| == RAMBLOCK_SIZE && WellFormed(r) && Accepted(r) && r.op.Write?
    ensures Process(data, r).status == Ok && Address(r) + |Flatten(r.segs)| <= RAMBLOCK_SIZE
    ensures Process(data, r).data == Splice(data, Address(r), Flatten(r.segs))
  {
    InsideDevice(r);
    SegmentsInRange(data, r.op, Address(r), r.segs);
  }

  lemma AcceptedRead(data: seq<byte>, r: Request)
    requires |data| == RAMBLOCK_SIZE && WellFormed(r) && Accepted(r) && r.op.Read?
    ensures Address(r) + r.sectors * SECTOR_SIZE <= RAMBLOCK_SIZE
    ensures Flatten(Process(data, r).segs) == data[Address(r)..Address(r) + r.sectors * SECTOR_SIZE]
  {
    AllOrNothing(data, r);
  }

  lemma {:induction false} LoopKeepsBuffers(data: seq<byte>, op: ReqOp, offset: nat, segs: seq<seq<byte>>)
    requires |data| == RAMBLOCK_SIZE
    ensures
      var o := Segments(data, op, offset, segs);
      && |o.segs| == |segs| && (forall i :: 0 <= i < |segs| ==> |o.segs[i]| == |segs[i]|)
      && (!op.Read? ==> o.segs == segs)
    decreases segs
  {
    if segs != [] && SegmentFits(offset, |segs[0]|) && !Escapes(op, offset, |segs[0]|) {
      LoopKeepsBuffers(Stored(data, op, offset, segs[0]), op, Wrap32(offset + |segs[0]|), segs[1..]);
    }
  }

  /** No request changes the number or the lengths of its buffers, and none but a read that passes the checks changes
      what is in them. */
  lemma BuffersKept(data: seq<byte>, r: Request)
    requires |data| == RAMBLOCK_SIZE
    ensures
      var o := Process(data, r);
      && |o.segs| == |r.segs| && (forall i :: 0 <= i < |r.segs| ==> |o.segs[i]| == |r.segs[i]|)
      && (!r.op.Read? || r.passthrough || (r.start + r.sectors) % U64 > CAPACITY ==> o.segs == r.segs)
  {
    LoopKeepsBuffers(data, r.op, Offset(r), r.segs);
  }

  /** Segment lengths are ints. */
  ghost predicate IntLengths(segs: seq<seq<byte>>) {
    forall i :: 0 <= i < |segs| ==> |segs[i]| < 0x8000_0000
  }

  /** A segment that leaves the device fails its check. */
  lemma Overlong(offset: nat, length: nat)
    requires offset <= RAMBLOCK_SIZE < offset + length && length < 0x8000_0000
    ensures !SegmentFits(offset, length)
  {
  }

  /** When the segments do not cover exactly the sectors, the loop may stop half way: it succeeds exactly when all the
      segments together end inside the device, and it never copies outside. */
  lemma {:induction false} SucceedsExactly(data: seq<byte>, op: ReqOp, offset: nat, segs: seq<seq<byte>>)
    requires IntLengths(segs) && offset <= RAMBLOCK_SIZE
    ensures
      var status := Segments(data, op, offset, segs).status;
      (status == Ok <==> offset + |Flatten(segs)| <= RAMBLOCK_SIZE) && status != Escaped
    decreases segs
  {
    if segs != [] {
      assert Flatten(segs) == segs[0] + Flatten(segs[1..]);
      if offset + |segs[0]| <= RAMBLOCK_SIZE {
        OneSegment(data, op, offset, segs);
        SucceedsExactly(Stored(data, op, offset, segs[0]), op, offset + |segs[0]|, segs[1..]);
      } else {
        Overlong(offset, |segs[0]|);
      }
    }
  }

  /** How many segments come before the first one that leaves the device. */
  function Fitting(offset: nat, segs: seq<seq<byte>>): (k: nat)
    ensures k <= |segs|
    decreases segs
  {
    if segs == [] || offset + |segs[0]| > RAMBLOCK_SIZE then 0 else 1 + Fitting(offset + |segs[0]|, segs[1..])
  }

  lemma OneMore(segs: seq<seq<byte>>, j: nat)
    requires j < |segs|
    ensures segs[..j + 1][0] == segs[0] && segs[..j + 1][1..] == segs[1..][..j] && segs[j + 1..] == segs[1..][j..]
    ensures |Flatten(segs[..j + 1])| == |segs[0]| + |Flatten(segs[1..][..j])|
  {
    assert segs[..j + 1] == [segs[0]] + segs[1..][..j];
    FlattenCons(segs[0], segs[1..][..j]);
  }

  lemma {:induction false} FittingEnds(offset: nat, segs: seq<seq<byte>>)
    requires offset <= RAMBLOCK_SIZE
    ensures
      var k := Fitting(offset, segs);
      var end := offset + |Flatten(segs[..k])|;
      end <= RAMBLOCK_SIZE && (k < |segs| ==> end + |segs[k]| > RAMBLOCK_SIZE)
    decreases segs
  {
    if segs != [] && offset + |segs[0]| <= RAMBLOCK_SIZE {
      FittingEnds(offset + |segs[0]|, segs[1..]);
      OneMore(segs, Fitting(offset + |segs[0]|, segs[1..]));
    }
  }

  /** What the loop over `a` and then, from `mid` on, over `b` comes to. */
  function OneAfterOther(data: seq<byte>, op: ReqOp, offset: nat, a: seq<seq<byte>>, mid: nat, b: seq<seq<byte>>): (o: Outcome) {
    var front := Segments(data, op, offset, a);
    var back := Segments(front.data, op, mid, b);
    Outcome(back.status, back.data, front.segs + back.segs)
  }

  lemma OneAfterOtherStep(data: seq<byte>, op: ReqOp, offset: nat, a: seq<seq<byte>>, mid: nat, b: seq<seq<byte>>)
    requires a != [] && offset + |a[0]| <= RAMBLOCK_SIZE
    ensures
      var rest := OneAfterOther(Stored(data, op, offset, a[0]), op, offset + |a[0]|, a[1..], mid, b);
      OneAfterOther(data, op, offset, a, mid, b)
      == Outcome(rest.status, rest.data, [Filled(data, op, offset, a[0])] + rest.segs)
  {
    OneSegment(data, op, offset, a);
    var front := Segments(Stored(data, op, offset, a[0]), op, offset + |a[0]|, a[1..]);
    Assoc([Filled(data, op, offset, a[0])], front.segs, Segments(front.data, op, mid, b).segs);
  }

  /** The loop over segments that fit and then others is the one loop after the other. */
  lemma {:induction false} LoopConcat(data: seq<byte>, op: ReqOp, offset: nat, a: seq<seq<byte>>, mid: nat, b: seq<seq<byte>>)
    requires offset + |Flatten(a)| == mid <= RAMBLOCK_SIZE
    ensures Segments(data, op, offset, a + b) == OneAfterOther(data, op, offset, a, mid, b)
    decreases a
  {
    if a == [] {
      assert a + b == b && [] + Segments(data, op, mid, b).segs == Segments(data, op, mid, b).segs;
    } else {
      assert Flatten(a) == a[0] + Flatten(a[1..]);
      LoopConcat(Stored(data, op, offset, a[0]), op, offset + |a[0]|, a[1..], mid, b);
      OneAfterOtherStep(data, op, offset, a, mid, b);
      TailOf(a, b);
      OneSegment(data, op, offset, a + b);
    }
  }

  lemma TailOf(a: seq<seq<byte>>, b: seq<seq<byte>>)
    requires a != []
    ensures (a + b)[0] == a[0] && (a + b)[1..] == a[1..] + b
  {
  }

  /** A loop that stops half way has carried out the segments before the one that leaves the device, and nothing of the
      rest. */
  lemma LoopStops(data: seq<byte>, op: ReqOp, offset: nat, segs: seq<seq<byte>>)
    requires IntLengths(segs) && offset <= RAMBLOCK_SIZE
    ensures
      var k := Fitting(offset, segs);
      var front := Segments(data, op, offset, segs[..k]);
      Segments(data, op, offset, segs) == Outcome(if k == |segs| then Ok else IoErr, front.data, front.segs + segs[k..])
  {
    var k := Fitting(offset, segs);
    FittingEnds(offset, segs);
    assert segs == segs[..k] + segs[k..];
    var front, mid := Segments(data, op, offset, segs[..k]), offset + |Flatten(segs[..k])|;
    LoopConcat(data, op, offset, segs[..k], mid, segs[k..]);
    assert IntLengths(segs[k..]);
    LoopRefuses(front.data, op, mid, segs[k..]);
  }

  /** At the end of the segments, or at one that leaves the device. */
  lemma LoopRefuses(data: seq<byte>, op: ReqOp, at: nat, segs: seq<seq<byte>>)
    requires IntLengths(segs) && at <= RAMBLOCK_SIZE && (segs != [] ==> at + |segs[0]| > RAMBLOCK_SIZE)
    ensures Segments(data, op, at, segs) == Outcome(if segs == [] then Ok else IoErr, data, segs)
  {
    if segs != [] { Overlong(at, |segs[0]|); }
  }

  /** The first `k` segments are carried out as one transfer, and nothing else has changed. */
  predicate DoneUpTo(data: seq<byte>, op: ReqOp, offset: nat, segs: seq<seq<byte>>, k: nat, o: Outcome)
    requires k <= |segs| && offset + |Flatten(segs[..k])| <= |data|
  {
    var done := Flatten(segs[..k]);
    var end := offset + |done|;
    && o.data == (if op.Write? then data[..offset] + done + data[end..] else data)
    && |o.segs| == |segs| && o.segs[k..] == segs[k..]
    && (if op.Read? then Flatten(o.segs[..k]) == data[offset..end] else o.segs == segs)
  }

  /** Whatever the segments cover: those before the first one that leaves the device are carried out as one splice or one
      slice, and the rest is left alone. */
  lemma StopsBetweenSegments(data: seq<byte>, op: ReqOp, offset: nat, segs: seq<seq<byte>>)
    requires |data| == RAMBLOCK_SIZE && IntLengths(segs) && offset <= RAMBLOCK_SIZE
    ensures
      var k, o := Fitting(offset, segs), Segments(data, op, offset, segs);
      var end := offset + |Flatten(segs[..k])|;
      && end <= RAMBLOCK_SIZE && (k < |segs| ==> end + |segs[k]| > RAMBLOCK_SIZE)
      && o.status == (if k == |segs| then Ok else IoErr)
      && DoneUpTo(data, op, offset, segs, k, o)
  {
    var k := Fitting(offset, segs);
    FittingEnds(offset, segs);
    LoopStops(data, op, offset, segs);
    SegmentsInRange(data, op, offset, segs[..k]);
    LoopKeepsBuffers(data, op, offset, segs[..k]);
    PartDone(data, op, offset, segs, k, Segments(data, op, offset, segs[..k]), Segments(data, op, offset, segs));
  }

  lemma PartDone(data: seq<byte>, op: ReqOp, offset: nat, segs: seq<seq<byte>>, k: nat, front: Outcome, o: Outcome)
    requires k <= |segs| && offset + |Flatten(segs[..k])| <= |data|
    requires front.data == Stored(data, op, offset, Flatten(segs[..k]))
    requires Flatten(front.segs) == Filled(data, op, offset, Flatten(segs[..k]))
    requires |front.segs| == k && (!op.Read? ==> front.segs == segs[..k])
    requires o.data == front.data && o.segs == front.segs + segs[k..]
    ensures DoneUpTo(data, op, offset, segs, k, o)
  {
    DropFront(front.segs, segs[k..]);
    assert o.segs[..k] == front.segs && segs == segs[..k] + segs[k..];
  }

  /** A request whose 64-bit sum does not wrap never makes the device copy outside. */
  lemma StaysInside(data: seq<byte>, r: Request)
    requires IntLengths(r.segs) && r.start + r.sectors < U64
    ensures Process(data, r).status != Escaped
  {
    assert (r.start + r.sectors) % U64 == r.start + r.sectors;
    if Passes(r) { SucceedsExactly(data, r.op, Offset(r), r.segs); }
  }

  /** The condition is needed. For a request whose segments cover its sectors and that passes the checks, the bytes it
      names are inside the device exactly when the 64-bit sum of the capacity check does not wrap. */
  lemma ChecksAreExact(r: Request)
    requires r.start < U64 && 0 < r.sectors < U32 && Passes(r)
    ensures Address(r) + r.sectors * SECTOR_SIZE <= RAMBLOCK_SIZE <==> r.start + r.sectors < U64
  {
    if r.start + r.sectors < U64 {
      assert (r.start + r.sectors) % U64 == r.start + r.sectors;
    } else {
      assert r.start > CAPACITY;
    }
  }

  /** A write to the last sector number of 64 bits passes both checks and copies outside the device. */
  lemma WrappedRequestEscapes(data: seq<byte>, seg: seq<byte>)
    requires |seg| == SECTOR_SIZE
    ensures Process(data, Request(U64 - 1, 1, Write, false, [seg])).status == Escaped
  {
    var r := Request(U64 - 1, 1, Write, false, [seg]);
    assert (U64 - 1) * SECTOR_SIZE == (SECTOR_SIZE * U32 - 1) * U32 + (U32 - SECTOR_SIZE);
    assert Offset(r) == U32 - SECTOR_SIZE;
  }

  // ---------------------------------------------------------------- cutting does not matter

  /** Two requests for the same sectors with the same joined bytes have the same effect, however they are cut. */
  lemma CuttingIrrelevant(data: seq<byte>, r: Request, q: Request)
    requires |data| == RAMBLOCK_SIZE && WellFormed(r) && WellFormed(q)
    requires r.start == q.start && r.sectors == q.sectors && r.op == q.op && r.passthrough == q.passthrough
    requires Flatten(r.segs) == Flatten(q.segs)
    ensures
      var o, p := Process(data, r), Process(data, q);
      o.status == p.status && o.data == p.data && Flatten(o.segs) == Flatten(p.segs)
  {
    AllOrNothing(data, r);
    AllOrNothing(data, q);
  }

  /** Splitting an accepted write at a sector boundary into two requests has the same effect. */
  lemma SplitAtSector(data: seq<byte>, r: Request, a: Request, b: Request)
    requires |data| == RAMBLOCK_SIZE && WellFormed(r) && WellFormed(a) && WellFormed(b)
    requires r.op.Write? && a.op.Write? && b.op.Write? && Accepted(r)
    requires !a.passthrough && !b.passthrough
    requires a.start == r.start && b.start == r.start + a.sectors && a.sectors + b.sectors == r.sectors
    requires Flatten(a.segs) + Flatten(b.segs) == Flatten(r.segs)
    ensures
      var o := Process(data, a);
      var p := Process(o.data, b);
      o.status == Ok && p.status == Ok && p.data == Process(data, r).data
  {
    AcceptedWrite(data, r);
    AcceptedWrite(data, a);
    assert Address(b) == Address(a) + |Flatten(a.segs)|;
    AcceptedWrite(Process(data, a).data, b);
    SpliceTwice(data, Address(a), Flatten(a.segs), Flatten(b.segs));
  }

  // ---------------------------------------------------------------- runs

  /** The device contents after a run of requests. */
  function Run(data: seq<byte>, rs: seq<Request>): (r: seq<byte>)
    ensures |data| == RAMBLOCK_SIZE ==> |r| == RAMBLOCK_SIZE
  {
    if rs == [] then data else
    var front := Run(data, rs[..|rs| - 1]);
    SegmentsKeepSize(front, rs[|rs| - 1]);
    Process(front, rs[|rs| - 1]).data
  }

  lemma {:induction false} LoopKeepsSize(data: seq<byte>, op: ReqOp, offset: nat, segs: seq<seq<byte>>)
    ensures |Segments(data, op, offset, segs).data| == |data|
    decreases segs
  {
    if segs != [] && SegmentFits(offset, |segs[0]|) && !Escapes(op, offset, |segs[0]|) {
      LoopKeepsSize(Stored(data, op, offset, segs[0]), op, Wrap32(offset + |segs[0]|), segs[1..]);
    }
  }

  lemma SegmentsKeepSize(data: seq<byte>, r: Request)
    ensures |Process(data, r).data| == |data|
  {
    LoopKeepsSize(data, r.op, Offset(r), r.segs);
  }

  /** The request is an accepted write that covers the byte address. */
  predicate Writes(r: Request, at: nat) {
    r.op.Write? && Accepted(r) && Address(r) <= at < Address(r) + |Flatten(r.segs)|
  }

  /** A byte is what the last accepted write that covers it has put there, and what was there at first if none has. */
  function ByteAt(data: seq<byte>, rs: seq<Request>, at: nat): (r: byte)
    requires at < |data| && forall i :: 0 <= i < |rs| ==> WellFormed(rs[i])
    decreases |rs|
  {
    if rs == [] then data[at]
    else
      var last := rs[|rs| - 1];
      if Writes(last, at) then Flatten(last.segs)[at - Address(last)] else ByteAt(data, rs[..|rs| - 1], at)
  }

  /** Every run of requests refines a flat byte array with the last writer winning at each address. */
  lemma {:induction false} LastWriterWins(data: seq<byte>, rs: seq<Request>, at: nat)
    requires |data| == RAMBLOCK_SIZE && at < RAMBLOCK_SIZE && forall i :: 0 <= i < |rs| ==> WellFormed(rs[i])
    ensures Run(data, rs)[at] == ByteAt(data, rs, at)
    decreases |rs|
  {
    if rs != [] {
      var front, last := rs[..|rs| - 1], rs[|rs| - 1];
      LastWriterWins(data, front, at);
      AllOrNothing(Run(data, front), last);
      SpliceByte(Run(data, front), Address(last), Flatten(last.segs), at);
    }
  }

  lemma SpliceByte(m: seq<byte>, at: nat, bs: seq<byte>, i: nat)
    requires i < |m|
    ensures at + |bs| <= |m| ==> Splice(m, at, bs)[i] == if at <= i < at + |bs| then bs[i - at] else m[i]
  {
  }

  /** A read under any segmentation returns, byte for byte, what was last written. */
  lemma ReadsLastWritten(data: seq<byte>, rs: seq<Request>, r: Request, k: nat)
    requires |data| == RAMBLOCK_SIZE && forall i :: 0 <= i < |rs| ==> WellFormed(rs[i])
    requires WellFormed(r) && r.op.Read? && Accepted(r)
    requires k < r.sectors * SECTOR_SIZE
    ensures
      var got := Flatten(Process(Run(data, rs), r).segs);
      |got| == r.sectors * SECTOR_SIZE && got[k] == ByteAt(data, rs, Address(r) + k)
  {
    AcceptedRead(Run(data, rs), r);
    LastWriterWins(data, rs, Address(r) + k);
    SliceByte(Run(data, rs), Address(r), r.sectors * SECTOR_SIZE, k);
  }

  lemma SliceByte(m: seq<byte>, at: nat, n: nat, k: nat)
    requires at + n <= |m| && k < n
    ensures |m[at..at + n]| == n && m[at..at + n][k] == m[at + k]
  {
  }

  // ---------------------------------------------------------------- the loop

  class Disk {
    const data: array<byte>

    ghost predicate Valid()
      reads this
    {
      data.Length == RAMBLOCK_SIZE
    }

    constructor ()
      ensures Valid() && fresh(data)
    {
      data := new byte[RAMBLOCK_SIZE](_ => 0);
    }

    /** memcpy into the device. */
    method Store(offset: nat, bytes: seq<byte>)
      requires offset + |bytes| <= data.Length
      modifies data
      ensures data[..] == Splice(old(data[..]), offset, bytes)
    {
      for k := 0 to |bytes|
        invariant forall i :: offset <= i < offset + k ==> data[i] == bytes[i - offset]
        invariant forall i :: 0 <= i < data.Length && !(offset <= i < offset + k) ==> data[i] == old(data[i])
      {
        data[offset + k] := bytes[k];
      }
    }

    /** ramblock_process_request. */
    method ProcessRequest(r: Request) returns (status: Status, segs: seq<seq<byte>>)
      requires Valid() && IntLengths(r.segs) && r.start < U64 && r.sectors < U32
      modifies data
      ensures Outcome(status, data[..], segs) == Process(old(data[..]), r)
    {
      if !Passes(r) { return IoErr, r.segs; }
      status, segs := TransferAll(r.op, Offset(r), r.segs);
    }

    /** The loop over the segments. */
    method TransferAll(op: ReqOp, start: nat, bufs: seq<seq<byte>>) returns (status: Status, segs: seq<seq<byte>>)
      requires Valid() && start < U32
      modifies data
      ensures Outcome(status, data[..], segs) == Segments(old(data[..]), op, start, bufs)
    {
      ghost var now := data[..];
      ghost var goal := Segments(now, op, start, bufs);
      var offset: nat, rest := start, bufs;
      segs := [];
      RemainingEnds(op, now, offset, segs, rest);
      while rest != []
        invariant data[..] == now && |now| == RAMBLOCK_SIZE
        invariant Remaining(op, now, offset, segs, rest) == goal
        decreases |rest|
      {
        var length := |rest[0]|;
        RemainingNext(op, now, offset, segs, rest);
        if Wrap32(offset + length) > RAMBLOCK_SIZE { return IoErr, segs + rest; }
        if Escapes(op, offset, length) { return Escaped, segs + rest; }
        var buf := Transfer(op, offset, rest[0]);
        now := Stored(now, op, offset, rest[0]);
        segs, offset, rest := segs + [buf], Wrap32(offset + length), rest[1..];
      }
      RemainingEnds(op, now, offset, segs, rest);
      status := Ok;
    }

    /** One segment: memcpy out of or into the device. */
    method Transfer(op: ReqOp, offset: nat, seg: seq<byte>) returns (buf: seq<byte>)
      requires Valid() && !Escapes(op, offset, |seg|)
      modifies data
      ensures buf == Filled(old(data[..]), op, offset, seg) && data[..] == Stored(old(data[..]), op, offset, seg)
    {
      buf := seg;
      if op.Read? {
        buf := data[offset..offset + |seg|];
        assert buf == data[..][offset..offset + |seg|];
      } else if op.Write? {
        Store(offset, seg);
      }
    }

    /** How the loop will end: `done` holds the buffers of the segments before `rest`. */
    static ghost function Remaining(op: ReqOp, now: seq<byte>, offset: nat, done: seq<seq<byte>>, rest: seq<seq<byte>>): (o: Outcome)
    {
      var end := Segments(now, op, offset, rest);
      Outcome(end.status, end.data, done + end.segs)
    }

    static lemma RemainingEnds(op: ReqOp, now: seq<byte>, offset: nat, done: seq<seq<byte>>, rest: seq<seq<byte>>)
      ensures done == [] ==> Remaining(op, now, offset, done, rest) == Segments(now, op, offset, rest)
      ensures rest == [] ==> Remaining(op, now, offset, done, rest) == Outcome(Ok, now, done)
    {
    }

    static lemma RemainingNext(op: ReqOp, now: seq<byte>, offset: nat, done: seq<seq<byte>>, rest: seq<seq<byte>>)
      requires rest != []
      ensures
        var goal := Remaining(op, now, offset, done, rest);
        if !SegmentFits(offset, |rest[0]|) then goal == Outcome(IoErr, now, done + rest)
        else if Escapes(op, offset, |rest[0]|) then goal == Outcome(Escaped, now, done + rest)
        else goal == Remaining(op, Stored(now, op, offset, rest[0]), Wrap32(offset + |rest[0]|),
                               done + [Filled(now, op, offset, rest[0])], rest[1..])
    {
      var end := Segments(Stored(now, op, offset, rest[0]), op, Wrap32(offset + |rest[0]|), rest[1..]);
      Assoc(done, [Filled(now, op, offset, rest[0])], end.segs);
    }
  }
}
