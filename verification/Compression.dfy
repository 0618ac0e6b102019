/**
 Chunk compression of src/server/compression/compression.c, on arrays of bytes and blocks.
 What each step computes is a function of module RunLength.
 */
module Compression {
  import opened Prelude
  import opened RunLength

  const CHUNK_SIZE := 16
  const CHUNK_HEIGHT := 256

  class Chunk {
    var x: Int
    var z: Int
    const blocks: array3<Block>

    constructor ()
      ensures fresh(blocks) && Shaped(blocks)
    {
      blocks := new Block[CHUNK_SIZE, CHUNK_HEIGHT, CHUNK_SIZE];
    }
  }

  predicate Shaped(a: array3<Block>) {
    a.Length0 == CHUNK_SIZE && a.Length1 == CHUNK_HEIGHT && a.Length2 == CHUNK_SIZE
  }

  /** Where in a chunk the n-th block of the flat form is. */
  function I(n: nat): (i: nat) ensures i < CHUNK_SIZE { n % 16 }
  function J(n: nat): (j: nat) ensures j < CHUNK_SIZE { n / 16 % 16 }
  function K(n: nat): (k: nat)
    requires n < BLOCKS
    ensures k < CHUNK_HEIGHT
  {
    n / 256
  }

  /** The blocks of a chunk in the order in which they are compressed. */
  ghost function Flat(a: array3<Block>): (s: seq<Block>)
    requires Shaped(a)
    reads a
    ensures |s| == BLOCKS
  {
    seq(BLOCKS, n requires 0 <= n < BLOCKS reads a => a[I(n), K(n), J(n)])
  }

  lemma Position(i: nat, k: nat, j: nat)
    requires i < CHUNK_SIZE && k < CHUNK_HEIGHT && j < CHUNK_SIZE
    ensures var n := i + j * CHUNK_SIZE + k * CHUNK_SIZE * CHUNK_SIZE;
      n < BLOCKS && I(n) == i && K(n) == k && J(n) == j
  {
    var n := i + j * 16 + k * 256;
    assert n / 16 == j + k * 16;
  }

  lemma OtherPosition(m: nat, n: nat)
    requires m < n < BLOCKS
    ensures I(m) != I(n) || K(m) != K(n) || J(m) != J(n)
  {
    assert m == m % 16 + m / 16 % 16 * 16 + m / 256 * 256;
    assert n == n % 16 + n / 16 % 16 * 16 + n / 256 * 256;
  }

  /** The order of the flat form: by x first, then by z, then by height. */
  lemma FlatOrder(a: array3<Block>, i: nat, k: nat, j: nat)
    requires Shaped(a) && i < 16 && k < 256 && j < 16
    ensures i + 16 * j + 256 * k < BLOCKS && Flat(a)[i + 16 * j + 256 * k] == a[i, k, j]
  {
    Position(i, k, j);
  }

  /** Every block of a chunk is in it: chunks with the same flat form are the same. */
  lemma FlatIsInjective(a: array3<Block>, b: array3<Block>)
    requires Shaped(a) && Shaped(b) && Flat(a) == Flat(b)
    ensures forall i, k, j :: 0 <= i < CHUNK_SIZE && 0 <= k < CHUNK_HEIGHT && 0 <= j < CHUNK_SIZE ==>
              a[i, k, j] == b[i, k, j]
  {
    forall i, k, j | 0 <= i < CHUNK_SIZE && 0 <= k < CHUNK_HEIGHT && 0 <= j < CHUNK_SIZE
      ensures a[i, k, j] == b[i, k, j]
    {
      Position(i, k, j);
      var n := i + j * CHUNK_SIZE + k * CHUNK_SIZE * CHUNK_SIZE;
      assert Flat(a)[n] == Flat(b)[n];
    }
  }

  // ---------------------------------------------------------------- buffers

  function Written(m: Bytes, at: nat, b: Bytes): (r: Bytes)
    requires at + |b| <= |m|
    ensures |r| == |m|
    ensures r[..at + |b|] == m[..at] + b
  {
    m[..at] + b + m[at + |b|..]
  }

  method PackIntToBuffer(dest: array<byte>, at: nat, value: Int)
    requires at + INT_BYTES <= dest.Length
    modifies dest
    ensures dest[..] == Written(old(dest[..]), at, PackInt(value))
  {
    hide ByteOf, Written;
    ghost var m := dest[..];
    ghost var b := PackInt(value);
    assert dest[..] == Written(m, at, b[..0]) by { NothingWritten(m, at); }
    for i := 1 to INT_BYTES + 1
      invariant dest[..] == Written(m, at, b[..i - 1])
    {
      OneMoreWritten(m, at, b, i - 1);
      dest[at + i - 1] := ByteOf(value, INT_BYTES - i);
    }
    assert b[..INT_BYTES] == b;
  }

  lemma NothingWritten(m: Bytes, at: nat)
    requires at <= |m|
    ensures Written(m, at, []) == m
  {
  }

  lemma OneMoreWritten(m: Bytes, at: nat, b: Bytes, i: nat)
    requires i < |b| && at + |b| <= |m|
    ensures Written(m, at, b[..i])[at + i := b[i]] == Written(m, at, b[..i + 1])
  {
  }

  method PackBlockToBuffer(dest: array<byte>, at: nat, value: Block)
    requires at + BLOCK_DATA_BYTES <= dest.Length
    modifies dest
    ensures dest[..] == Written(old(dest[..]), at, PackBlock(value))
  {
    dest[at], dest[at + 1], dest[at + 2] := value.b0, value.b1, value.b2;
  }

  /** Or-ing bytes shifted to different places adds them up; the top bit is the sign. */
  method PullIntFromBuffer(source: array<byte>, at: nat) returns (v: Int)
    requires at + INT_BYTES <= source.Length
    ensures v == PullInt(source[at..at + INT_BYTES])
  {
    Powers();
    var out: nat := 0;
    for i := 0 to INT_BYTES
      invariant out == (if i > 0 then source[at] as int * 0x100_0000 else 0)
        + (if i > 1 then source[at + 1] as int * 0x1_0000 else 0)
        + (if i > 2 then source[at + 2] as int * 0x100 else 0)
        + (if i > 3 then source[at + 3] as int else 0)
    {
      out := out + source[at + i] as int * Power256(INT_BYTES - 1 - i);
    }
    v := AsInt(out);
  }

  method PullPacketFromBuffer(source: array<byte>, at: nat) returns (p: Packet)
    requires at + PACKET <= source.Length
    ensures p == PullPacket(source[at..at + PACKET])
  {
    var count := PullIntFromBuffer(source, at + BLOCK_DATA_BYTES);
    p := Packet(count, Block(source[at], source[at + 1], source[at + 2]));
    assert source[at..at + PACKET][BLOCK_DATA_BYTES..] == source[at + BLOCK_DATA_BYTES..at + PACKET];
  }

  method WriteHeader(out: array<byte>, x: Int, z: Int, packetCount: Int)
    requires HEADER <= out.Length
    modifies out
    ensures out[..HEADER] == Header(x, z, packetCount)
  {
    hide PackInt, Written;
    PackIntToBuffer(out, 0, x);
    assert out[..INT_BYTES] == PackInt(x);
    PackIntToBuffer(out, INT_BYTES, z);
    assert out[..2 * INT_BYTES] == PackInt(x) + PackInt(z);
    PackIntToBuffer(out, 2 * INT_BYTES, packetCount);
  }

  method WritePacket(out: array<byte>, at: nat, p: Packet)
    requires at + PACKET <= out.Length
    modifies out
    ensures out[..at + PACKET] == old(out[..at]) + PackPacket(p)
  {
    hide PackInt, PackBlock, Written;
    PackBlockToBuffer(out, at, p.data);
    assert out[..at + BLOCK_DATA_BYTES] == old(out[..at]) + PackBlock(p.data);
    PackIntToBuffer(out, at + BLOCK_DATA_BYTES, p.count);
    assert old(out[..at]) + PackBlock(p.data) + PackInt(p.count) == old(out[..at]) + PackPacket(p);
  }

  method ToBuffer(x: Int, z: Int, packetCount: Int, packets: array<Packet>) returns (out: array<byte>)
    requires packetCount == packets.Length
    ensures fresh(out)
    ensures out[..] == Encode(CompressedChunk(x, z, packetCount, packets[..]))
  {
    hide Header, PackPacket, PackPackets;
    var size := HEADER + PACKET * packetCount as int;
    out := new byte[size](_ => 0);
    WriteHeader(out, x, z, packetCount);
    var idx := HEADER;
    ghost var header, ps := Header(x, z, packetCount), packets[..];
    var i := 0;
    assert PackPackets(ps[..0]) == [] by { NoPacketsPacked(); }
    while i < packetCount as int
      invariant 0 <= i <= packetCount as int && idx == HEADER + PACKET * i && packets[..] == ps
      invariant out[..idx] == header + PackPackets(ps[..i])
    {
      PackPacketsAppend(ps[..i], packets[i]);
      assert ps[..i + 1] == ps[..i] + [packets[i]];
      WritePacket(out, idx, packets[i]);
      idx := idx + BLOCK_DATA_BYTES;
      idx := idx + INT_BYTES;
      i := i + 1;
    }
    assert ps[..i] == ps && out[..idx] == out[..];
  }

  lemma NoPacketsPacked()
    ensures PackPackets([]) == []
  {
  }

  /** `size` is the length of the buffer. */
  method FromBuffer(source: array?<byte>, size: int) returns (c: Option<CompressedChunk>)
    requires source != null ==> size <= source.Length
    ensures c == if source == null || size < 0 then None else Decode(source[..size])
  {
    hide PullInt, PullPacket, Joined, PullPackets;
    if source == null {
      return None;
    }
    if size < HEADER + BLOCK_DATA_BYTES {
      return None;
    }
    ghost var b := source[..size];
    var x := PullIntFromBuffer(source, 0);
    var z := PullIntFromBuffer(source, INT_BYTES);
    var packetCount := PullIntFromBuffer(source, 2 * INT_BYTES);
    SliceOfPrefix(source[..], size, 0, INT_BYTES);
    SliceOfPrefix(source[..], size, INT_BYTES, 2 * INT_BYTES);
    SliceOfPrefix(source[..], size, 2 * INT_BYTES, HEADER);
    var idx := HEADER;
    var packets: seq<Packet> := [];
    var i := 0;
    JoinedNone(PullPackets(b, packetCount as int, idx));
    while i < packetCount as int
      invariant 0 <= i && (i <= packetCount as int || i == 0) && idx == HEADER + PACKET * i && |packets| == i
      invariant PullPackets(b, packetCount as int, HEADER)
             == Joined(packets, PullPackets(b, packetCount as int - i, idx))
    {
      if idx + BLOCK_DATA_BYTES + INT_BYTES > size {
        PullStep(b, packetCount as int - i, idx);
        JoinedWithNone(packets);
        return None;
      }
      var p := PullPacketFromBuffer(source, idx);
      SliceOfPrefix(source[..], size, idx, idx + PACKET);
      PullStep(b, packetCount as int - i, idx);
      JoinedOne(packets, p, PullPackets(b, packetCount as int - i - 1, idx + PACKET));
      packets := packets + [p];
      idx := idx + BLOCK_DATA_BYTES + INT_BYTES;
      i := i + 1;
    }
    PullStep(b, packetCount as int - i, idx);
    JoinedWithNothing(packets);
    c := Some(CompressedChunk(x, z, packetCount, packets));
  }

  lemma SliceOfPrefix(m: Bytes, size: nat, i: nat, j: nat)
    requires i <= j <= size <= |m|
    ensures m[..size][i..j] == m[i..j]
  {
  }

  lemma PullStep(b: Bytes, n: int, idx: nat)
    ensures PullPackets(b, n, idx) ==
      if n <= 0 then Some([])
      else if idx + PACKET > |b| then None
      else Joined([PullPacket(b[idx..idx + PACKET])], PullPackets(b, n - 1, idx + PACKET))
  {
  }

  ghost function Joined(ps: seq<Packet>, rest: Option<seq<Packet>>): Option<seq<Packet>> {
    match rest
    case None => None
    case Some(qs) => Some(ps + qs)
  }

  lemma JoinedNone(rest: Option<seq<Packet>>)
    ensures Joined([], rest) == rest
  {
    if rest.Some? {
      assert [] + rest.value == rest.value;
    }
  }

  lemma JoinedWithNone(ps: seq<Packet>)
    ensures Joined(ps, None) == None
  {
  }

  lemma JoinedWithNothing(ps: seq<Packet>)
    ensures Joined(ps, Some([])) == Some(ps)
  {
    assert ps + [] == ps;
  }

  lemma JoinedOne(ps: seq<Packet>, p: Packet, rest: Option<seq<Packet>>)
    ensures Joined(ps + [p], rest) == Joined(ps, Joined([p], rest))
  {
    if rest.Some? {
      assert ps + [p] + rest.value == ps + ([p] + rest.value);
    }
  }

  // ---------------------------------------------------------------- helpers

  /** The first n blocks of the flat form are these. */
  ghost predicate Same(a: array3<Block>, s: seq<Block>, n: nat)
    requires Shaped(a) && n <= |s| == BLOCKS
    reads a
  {
    forall m :: 0 <= m < n ==> s[m] == a[I(m), K(m), J(m)]
  }

  method FlattenBlockArray(a: array3<Block>, out: array<Block>)
    requires Shaped(a) && out.Length == BLOCKS
    modifies out
    ensures out[..] == Flat(a)
  {
    hide I, J, K;
    for k := 0 to CHUNK_HEIGHT
      invariant Same(a, out[..], k * 256)
    {
      for j := 0 to CHUNK_SIZE
        invariant Same(a, out[..], k * 256 + j * 16)
      {
        for i := 0 to CHUNK_SIZE
          invariant Same(a, out[..], k * 256 + j * 16 + i)
        {
          Position(i, k, j);
          var idx := i + j * CHUNK_SIZE + k * CHUNK_SIZE * CHUNK_SIZE;
          out[idx] := a[i, k, j];
        }
      }
    }
  }

  method PopulateChunkBlocks(a: array3<Block>, blocks: array<Block>)
    requires Shaped(a) && blocks.Length == BLOCKS
    modifies a
    ensures Flat(a) == blocks[..]
  {
    hide I, J, K;
    for k := 0 to CHUNK_HEIGHT
      invariant Same(a, blocks[..], k * 256)
    {
      for j := 0 to CHUNK_SIZE
        invariant Same(a, blocks[..], k * 256 + j * 16)
      {
        for i := 0 to CHUNK_SIZE
          invariant Same(a, blocks[..], k * 256 + j * 16 + i)
        {
          Position(i, k, j);
          var idx := i + j * CHUNK_SIZE + k * CHUNK_SIZE * CHUNK_SIZE;
          forall m | 0 <= m < idx ensures I(m) != i || K(m) != k || J(m) != j {
            OtherPosition(m, idx);
          }
          a[i, k, j] := blocks[idx];
        }
      }
    }
  }

  method CompressBlockSegment(blocks: array<Block>, i0: nat) returns (p: Packet, i: nat)
    requires i0 < blocks.Length == BLOCKS
    ensures p == Packet(Run(blocks[..], blocks[i0], i0), blocks[i0])
    ensures i == i0 + p.count as int > i0
  {
    var ref := blocks[i0];
    i := i0;
    var count := 0;
    while i < BLOCKS && blocks[i] == ref
      invariant i == i0 + count <= BLOCKS && (i == i0 || count > 0)
      invariant Run(blocks[..], ref, i0) == count + Run(blocks[..], ref, i)
    {
      count := count + 1;
      i := i + 1;
    }
    p := Packet(count, ref);
  }

  // ----------------------------------------------------------- whole chunks

  /** First, the segments are counted. */
  method CountSegments(blocks: array<Block>) returns (count: nat)
    requires blocks.Length == BLOCKS
    ensures count == |Runs(blocks[..], 0)|
  {
    hide Run, Runs;
    var idx: nat := 0;
    var p;
    count := 0;
    while idx < BLOCKS
      invariant idx <= BLOCKS && |Runs(blocks[..], 0)| == count + |Runs(blocks[..], idx)|
    {
      RunsStep(blocks[..], idx);
      p, idx := CompressBlockSegment(blocks, idx);
      count := count + 1;
    }
    RunsStep(blocks[..], idx);
  }

  /** Then they are made. */
  method MakeSegments(blocks: array<Block>, count: nat) returns (packets: array<Packet>)
    requires blocks.Length == BLOCKS && count == |Runs(blocks[..], 0)|
    ensures fresh(packets) && packets[..] == Runs(blocks[..], 0)
  {
    hide Run, Runs;
    var idx: nat := 0;
    var p;
    packets := new Packet[count];
    ghost var s := blocks[..];
    for i := 0 to count
      invariant idx <= BLOCKS && blocks[..] == s && Runs(s, 0) == packets[..i] + Runs(s, idx)
    {
      RunsStep(s, idx);
      p, idx := CompressBlockSegment(blocks, idx);
      packets[i] := p;
      assert packets[..i + 1] == packets[..i] + [p];
    }
    assert packets[..count] == packets[..];
  }

  method CompressChunk(c: Chunk) returns (out: array<byte>)
    requires Shaped(c.blocks)
    ensures fresh(out) && out[..] == Compressed(c.x, c.z, Flat(c.blocks))
  {
    hide Run, Runs, Flat, Encode;
    var blocks := new Block[BLOCKS];
    FlattenBlockArray(c.blocks, blocks);
    RunsExpand(blocks[..], 0);
    var count := CountSegments(blocks);
    var packets := MakeSegments(blocks, count);
    out := ToBuffer(c.x, c.z, count, packets);
  }

  lemma ExpandAppend(ps: seq<Packet>, qs: seq<Packet>)
    ensures Expand(ps + qs) == Expand(ps) + Expand(qs)
  {
    if ps == [] {
      assert ps + qs == qs;
    } else {
      assert (ps + qs)[1..] == ps[1..] + qs;
      ExpandAppend(ps[1..], qs);
    }
  }

  lemma ExpandFits(ps: seq<Packet>, i: nat)
    requires i < |ps|
    ensures Expand(ps[..i + 1]) == Expand(ps[..i]) + Repeat(ps[i].data, ps[i].count)
    ensures |Expand(ps[..i + 1])| <= |Expand(ps)|
  {
    hide Repeat;
    assert ps[..i + 1] == ps[..i] + [ps[i]] && ps == ps[..i + 1] + ps[i + 1..];
    ExpandAppend(ps[..i], [ps[i]]);
    ExpandAppend(ps[..i + 1], ps[i + 1..]);
    assert Expand([ps[i]]) == Repeat(ps[i].data, ps[i].count) + Expand([]);
  }

  /** One packet is unpacked after what is there already. The source does not look at the
      end of the array; here the first write past it ends the loop. */
  method Unpack(blocks: array<Block>, p: Packet, idx0: nat) returns (inside: bool, idx: nat)
    requires idx0 <= blocks.Length
    modifies blocks
    ensures inside <==> idx0 + |Repeat(p.data, p.count)| <= blocks.Length
    ensures inside ==> idx == idx0 + |Repeat(p.data, p.count)|
    ensures inside ==> blocks[..] == old(blocks[..idx0]) + Repeat(p.data, p.count) + old(blocks[idx..])
  {
    idx := idx0;
    var j := 0;
    while j < p.count as int
      invariant 0 <= j && (j == 0 || j <= p.count as int) && idx == idx0 + j <= blocks.Length
      invariant forall k :: 0 <= k < blocks.Length ==>
                  blocks[k] == if idx0 <= k < idx then p.data else old(blocks[k])
    {
      if idx == blocks.Length {
        return false, idx;
      }
      blocks[idx] := p.data;
      idx := idx + 1;
      j := j + 1;
    }
    inside := true;
  }

  /** The chunk, if the buffer gives one, or whether unpacking overran the array of blocks. */
  method DecompressChunk(bytes: array?<byte>, size: int) returns (c: Chunk?, overrun: bool)
    requires bytes != null ==> size <= bytes.Length
    ensures c != null ==> fresh(c) && fresh(c.blocks) && Shaped(c.blocks)
    ensures bytes == null || size < 0 ==> c == null && !overrun
    ensures bytes != null && size >= 0 ==>
      match Decompressed(bytes[..size])
      case Refused => c == null && !overrun
      case Overrun => c == null && overrun
      case Done(x, z, blocks) => c != null && !overrun && c.x == x && c.z == z && Flat(c.blocks) == blocks
  {
    hide Decode, Expand, Repeat, Flat, InBounds;
    var comp := FromBuffer(bytes, size);
    if comp == None {
      return null, false;
    }
    var ps := comp.value.packets;
    var blocks := new Block[BLOCKS](_ => AIR);
    assert blocks[..] == Repeat(AIR, BLOCKS) by { AllAir(blocks[..]); }
    var inside := UnpackAll(ps, blocks);
    if !inside {
      return null, true;
    }
    overrun := false;
    c := new Chunk();
    c.x, c.z := comp.value.x, comp.value.z;
    PopulateChunkBlocks(c.blocks, blocks);
  }

  lemma AllAir(s: seq<Block>)
    requires |s| == BLOCKS && forall k :: 0 <= k < |s| ==> s[k] == AIR
    ensures s == Repeat(AIR, BLOCKS)
  {
  }

  /** The loop over the packets. */
  method UnpackAll(ps: seq<Packet>, blocks: array<Block>) returns (inside: bool)
    requires blocks.Length == BLOCKS && blocks[..] == Repeat(AIR, BLOCKS)
    modifies blocks
    ensures inside <==> InBounds(ps, 0)
    ensures inside ==> blocks[..] == Expand(ps) + Repeat(AIR, BLOCKS - |Expand(ps)|)
  {
    hide InBounds;
    InBoundsIff(ps, 0);
    var idx := 0;
    var i := 0;
    assert ps[..0] == [];
    while i < |ps|
      invariant i <= |ps| && idx == |Expand(ps[..i])| <= BLOCKS
      invariant blocks[..] == Expand(ps[..i]) + Repeat(AIR, BLOCKS - idx)
    {
      hide Expand;
      ExpandFits(ps, i);
      ghost var before := blocks[..];
      assert before[..idx] == Expand(ps[..i]);
      inside, idx := Unpack(blocks, ps[i], idx);
      if !inside {
        return;
      }
      assert blocks[..idx] == Expand(ps[..i + 1]);
      assert blocks[idx..] == before[idx..] == Repeat(AIR, BLOCKS - idx);
      assert blocks[..] == blocks[..idx] + blocks[idx..];
      i := i + 1;
    }
    assert ps[..i] == ps;
    inside := true;
  }
}
