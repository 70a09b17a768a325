/** The record codec of src/dump/dumps.c. */
module RecordCodec {
  import opened Options
  import opened Bytes

  const ID_SIZE := 4

  newtype uint32 = x: int | 0 <= x < 0x1_0000_0000

  /** memcpy of an unsigned int copies its bytes in the order of the machine. */
  datatype Endian = Little | Big

  datatype Params = Params(id: uint32, name: seq<byte>)

  /** The name is a C string. */
  predicate IsName(name: seq<byte>) {
    0 !in name
  }

  function IdBytes(id: uint32, e: Endian): (r: seq<byte>)
    ensures |r| == ID_SIZE
  {
    var n := id as int;
    var q1 := n / 256;
    var q2 := q1 / 256;
    var b0, b1, b2, b3 := (n % 256) as byte, (q1 % 256) as byte, (q2 % 256) as byte, (q2 / 256) as byte;
    if e.Little? then [b0, b1, b2, b3] else [b3, b2, b1, b0]
  }

  function IdOf(bs: seq<byte>, e: Endian): (r: uint32)
    requires |bs| == ID_SIZE
  {
    var c := if e.Little? then bs else [bs[3], bs[2], bs[1], bs[0]];
    (c[0] as int + 256 * (c[1] as int + 256 * (c[2] as int + 256 * c[3] as int))) as uint32
  }

  /** Taking an id apart and putting it together are inverse to each other. */
  lemma IdRoundTrip(id: uint32, bs: seq<byte>, e: Endian)
    requires |bs| == ID_SIZE
    ensures IdOf(IdBytes(id, e), e) == id && IdBytes(IdOf(bs, e), e) == bs
  {
    var c := if e.Little? then bs else [bs[3], bs[2], bs[1], bs[0]];
    var q2 := c[2] as int + 256 * c[3] as int;
    var q1 := c[1] as int + 256 * q2;
    var n := c[0] as int + 256 * q1;
    assert n / 256 == q1 && n % 256 == c[0] as int;
    assert q1 / 256 == q2 && q1 % 256 == c[1] as int;
    assert q2 / 256 == c[3] as int && q2 % 256 == c[2] as int;
  }

  /** marshal: the id, the name, and a terminator. */
  function Encode(p: Params, e: Endian): (r: seq<byte>) {
    IdBytes(p.id, e) + p.name + [0]
  }

  /** The layout: byte `k` of a little-endian id is its digit for 256^k, a big-endian id has the same bytes in reverse, and
      the name and its terminator follow. */
  lemma LayoutExactly(p: Params, e: Endian)
    ensures
      var b, id := Encode(p, e), p.id as int;
      && |b| == 4 + |p.name| + 1 && b[4..4 + |p.name|] == p.name && b[4 + |p.name|] == 0
      && (var c := if e.Little? then [b[0], b[1], b[2], b[3]] else [b[3], b[2], b[1], b[0]];
          && c[0] as int == id % 256 && c[1] as int == (id / 256) % 256
          && c[2] as int == (id / 65536) % 256 && c[3] as int == (id / 16777216) % 256)
  {
    assert Encode(p, e)[..4] == IdBytes(p.id, e);
    var id := p.id as int;
    assert id / 256 / 256 == id / 65536 && id / 65536 / 256 == id / 16777216;
  }

  /** strlen from an offset on. */
  function StrLen(buf: seq<byte>, at: nat): (r: nat)
    requires at <= |buf| && 0 in buf[at..]
    ensures at + r < |buf| && buf[at + r] == 0 && 0 !in buf[at..at + r]
    decreases |buf| - at
  {
    if buf[at] == 0 then 0
    else
      assert buf[at..] == [buf[at]] + buf[at + 1..];
      var n := StrLen(buf, at + 1);
      assert buf[at..at + 1 + n] == [buf[at]] + buf[at + 1..at + 1 + n];
      1 + n
  }

  lemma {:induction false} StrLenAt(buf: seq<byte>, at: nat, n: nat)
    requires at + n < |buf| && buf[at + n] == 0 && 0 !in buf[at..at + n]
    ensures 0 in buf[at..] && StrLen(buf, at) == n
    decreases n
  {
    assert buf[at + n] in buf[at..];
    if n > 0 {
      assert buf[at] in buf[at..at + n];
      assert buf[at + 1..at + n] == buf[at..at + n][1..];
      StrLenAt(buf, at + 1, n - 1);
    }
  }

  /** What unmarshal can read: an id and a terminated name. */
  predicate Readable(buf: seq<byte>) {
    |buf| >= ID_SIZE && 0 in buf[ID_SIZE..]
  }

  /** unmarshal. */
  function Decode(buf: seq<byte>, e: Endian): (p: Params)
    requires Readable(buf)
  {
    Params(IdOf(buf[..ID_SIZE], e), buf[ID_SIZE..ID_SIZE + StrLen(buf, ID_SIZE)])
  }

  /** Unmarshal undoes marshal, whatever bytes follow the encoding. */
  lemma RoundTrip(p: Params, rest: seq<byte>, e: Endian)
    requires IsName(p.name)
    ensures var buf := Encode(p, e) + rest;
      && |Encode(p, e)| == ID_SIZE + |p.name| + 1
      && Readable(buf) && Decode(buf, e) == p
  {
    var buf := Encode(p, e) + rest;
    var end := ID_SIZE + |p.name|;
    assert buf[end] == 0 && buf[end] in buf[ID_SIZE..];
    assert buf[ID_SIZE..end] == p.name;
    assert buf[..ID_SIZE] == IdBytes(p.id, e);
    IdRoundTrip(p.id, IdBytes(p.id, e), e);
    StrLenAt(buf, ID_SIZE, |p.name|);
  }

  /** The other way round: what can be read is the encoding of what was read, followed by something. */
  lemma DecodeThenEncode(buf: seq<byte>, e: Endian)
    requires Readable(buf)
    ensures IsName(Decode(buf, e).name) && Encode(Decode(buf, e), e) <= buf
  {
    var p := Decode(buf, e);
    var n := StrLen(buf, ID_SIZE);
    IdRoundTrip(p.id, buf[..ID_SIZE], e);
    var end := ID_SIZE + n;
    assert buf[..ID_SIZE] + buf[ID_SIZE..end] == buf[..end];
    assert buf[..end] + [buf[end]] == buf[..end + 1];
  }

  /** No encoding is a prefix of another one, so encodings can be stored one after the other. */
  lemma PrefixFree(p: Params, q: Params, e: Endian)
    requires IsName(p.name) && IsName(q.name)
    ensures Encode(p, e) <= Encode(q, e) ==> p == q
  {
    if Encode(p, e) <= Encode(q, e) {
      var rest := Encode(q, e)[|Encode(p, e)|..];
      assert Encode(q, e) == Encode(p, e) + rest == Encode(q, e) + [];
      RoundTrip(p, rest, e);
      RoundTrip(q, [], e);
    }
  }

  // ---------------------------------------------------------------- the buffers

  /** marshal; `alloc` says whether the allocation succeeds. */
  method Marshal(p: Params, e: Endian, alloc: bool) returns (buf: array?<byte>)
    requires IsName(p.name)
    ensures buf == null <==> !alloc
    ensures buf != null ==> fresh(buf) && buf[..] == Encode(p, e)
  {
    if !alloc { return null; }
    buf := new byte[ID_SIZE + |p.name| + 1];
    var id := IdBytes(p.id, e);
    for i := 0 to ID_SIZE
      invariant forall k :: 0 <= k < i ==> buf[k] == id[k]
    {
      buf[i] := id[i];
    }
    var offset := ID_SIZE;
    for i := 0 to |p.name|
      invariant forall k :: 0 <= k < offset ==> buf[k] == id[k]
      invariant forall k :: offset <= k < offset + i ==> buf[k] == p.name[k - offset]
    {
      buf[offset + i] := p.name[i];
    }
    buf[offset + |p.name|] := 0;
    assert buf[..] == Encode(p, e);
  }

  /** unmarshal. The id is stored before the allocation and so also when that fails. */
  method Unmarshal(buf: array<byte>, e: Endian, alloc: bool) returns (ret: int, id: uint32, name: Option<seq<byte>>)
    requires Readable(buf[..])
    ensures ret == (if alloc then 0 else -1) && id == Decode(buf[..], e).id
    ensures name == if alloc then Some(Decode(buf[..], e).name) else None
  {
    id := IdOf(buf[..ID_SIZE], e);
    assert buf[..ID_SIZE] == buf[..][..ID_SIZE];
    if !alloc { return -1, id, None; }
    var n := 0;
    while buf[ID_SIZE + n] != 0
      invariant 0 <= n && ID_SIZE + n < buf.Length && 0 !in buf[ID_SIZE..ID_SIZE + n]
      decreases buf.Length - n
    {
      TerminatorAhead(buf[..], n);
      n := n + 1;
    }
    StrLenAt(buf[..], ID_SIZE, n);
    assert buf[ID_SIZE..ID_SIZE + n] == buf[..][ID_SIZE..ID_SIZE + n];
    name := Some(buf[ID_SIZE..ID_SIZE + n]);
    ret := 0;
  }

  lemma TerminatorAhead(buf: seq<byte>, n: nat)
    requires Readable(buf) && ID_SIZE + n < |buf| && 0 !in buf[ID_SIZE..ID_SIZE + n] && buf[ID_SIZE + n] != 0
    ensures ID_SIZE + n + 1 < |buf| && 0 !in buf[ID_SIZE..ID_SIZE + n + 1]
  {
    assert buf[ID_SIZE..ID_SIZE + n + 1] == buf[ID_SIZE..ID_SIZE + n] + [buf[ID_SIZE + n]];
    assert buf[ID_SIZE..] == buf[ID_SIZE..ID_SIZE + n + 1] + buf[ID_SIZE + n + 1..];
  }
}
