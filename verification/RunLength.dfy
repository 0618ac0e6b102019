/**
 The compressed form of a chunk of src/server/compression: its blocks as runs of equal
 blocks, written as bytes. Ints are 32 bits wide, two's complement, most significant byte
 first.
 */
module RunLength {
  import opened Prelude

  type Int = x: int | -0x8000_0000 <= x < 0x8000_0000
  type Bytes = seq<byte>

  datatype Block = Block(b0: byte, b1: byte, b2: byte)
  datatype Packet = Packet(count: Int, data: Block)
  datatype CompressedChunk = CompressedChunk(x: Int, z: Int, packetCount: Int, packets: seq<Packet>)

  const INT_BYTES := 4
  const BLOCK_DATA_BYTES := 3
  const HEADER := 3 * INT_BYTES
  const PACKET := BLOCK_DATA_BYTES + INT_BYTES

  // ------------------------------------------------------------------- ints

  /** The value shifted right by 8 * k, and its low 8 bits. */
  function ByteOf(v: Int, k: nat): byte {
    (v / Power256(k) % 0x100) as byte
  }

  function Power256(k: nat): (p: nat)
    ensures p > 0
  {
    if k == 0 then 1 else 0x100 * Power256(k - 1)
  }

  function PackInt(v: Int): (b: Bytes)
    ensures |b| == INT_BYTES
  {
    [ByteOf(v, 3), ByteOf(v, 2), ByteOf(v, 1), ByteOf(v, 0)]
  }

  function PullInt(b: Bytes): Int
    requires |b| == INT_BYTES
  {
    AsInt(b[0] as int * 0x100_0000 + b[1] as int * 0x1_0000 + b[2] as int * 0x100 + b[3] as int)
  }

  lemma Digits(v: int)
    ensures v == v / 0x100_0000 * 0x100_0000 + v / 0x1_0000 % 0x100 * 0x1_0000 + v / 0x100 % 0x100 * 0x100 + v % 0x100
  {
    assert v / 0x1_0000 == v / 0x100 / 0x100;
    assert v / 0x100_0000 == v / 0x1_0000 / 0x100;
  }

  lemma Powers()
    ensures Power256(0) == 1 && Power256(1) == 0x100 && Power256(2) == 0x1_0000 && Power256(3) == 0x100_0000
  {
    assert Power256(2) == 0x100 * Power256(1);
    assert Power256(3) == 0x100 * Power256(2);
  }

  /** Every int is read back as it was written. */
  lemma IntRoundTrip(v: Int)
    ensures PullInt(PackInt(v)) == v
  {
    hide AsInt;
    Powers();
    Digits(v);
    var high := v / 0x100_0000;
    assert -0x80 <= high < 0x80;
    assert high % 0x100 == if high < 0 then high + 0x100 else high;
  }

  /** The bytes are those of the int modulo 2^32, most significant first. */
  lemma BigEndian(v: Int)
    ensures var b := PackInt(v);
      var n := b[0] as int * 0x100_0000 + b[1] as int * 0x1_0000 + b[2] as int * 0x100 + b[3] as int;
      n == if v < 0 then v + 0x1_0000_0000 else v
  {
    Powers();
    Digits(v);
    var high := v / 0x100_0000;
    assert high % 0x100 == if high < 0 then high + 0x100 else high;
  }

  // ---------------------------------------------------------------- buffers

  function PackBlock(b: Block): (r: Bytes)
    ensures |r| == BLOCK_DATA_BYTES
  {
    [b.b0, b.b1, b.b2]
  }

  function PackPacket(p: Packet): (r: Bytes)
    ensures |r| == PACKET
  {
    PackBlock(p.data) + PackInt(p.count)
  }

  function PullPacket(b: Bytes): Packet
    requires |b| == PACKET
  {
    Packet(PullInt(b[BLOCK_DATA_BYTES..]), Block(b[0], b[1], b[2]))
  }

  function PackPackets(ps: seq<Packet>): (r: Bytes)
    ensures |r| == PACKET * |ps|
  {
    if ps == [] then [] else PackPacket(ps[0]) + PackPackets(ps[1..])
  }

  /** n packets from idx on, if they are all there. None, for a negative n. */
  function PullPackets(b: Bytes, n: int, idx: nat): (r: Option<seq<Packet>>)
    ensures r.Some? && n >= 0 ==> |r.value| == n
    decreases n
  {
    if n <= 0 then Some([])
    else if idx + PACKET > |b| then None
    else
      match PullPackets(b, n - 1, idx + PACKET)
      case None => None
      case Some(rest) => Some([PullPacket(b[idx..idx + PACKET])] + rest)
  }

  function Header(x: Int, z: Int, packetCount: Int): (r: Bytes)
    ensures |r| == HEADER
  {
    PackInt(x) + PackInt(z) + PackInt(packetCount)
  }

  predicate WellFormed(c: CompressedChunk) {
    c.packetCount == |c.packets|
  }

  function Encode(c: CompressedChunk): (r: Bytes)
    ensures |r| == HEADER + PACKET * |c.packets|
  {
    Header(c.x, c.z, c.packetCount) + PackPackets(c.packets)
  }

  function Decode(b: Bytes): Option<CompressedChunk> {
    if |b| < HEADER + BLOCK_DATA_BYTES then None
    else
      var packetCount := PullInt(b[2 * INT_BYTES..HEADER]);
      match PullPackets(b, packetCount, HEADER)
      case None => None
      case Some(ps) =>
        Some(CompressedChunk(PullInt(b[..INT_BYTES]), PullInt(b[INT_BYTES..2 * INT_BYTES]), packetCount, ps))
  }

  lemma PacketRoundTrip(p: Packet)
    ensures PullPacket(PackPacket(p)) == p
  {
    IntRoundTrip(p.count);
    assert PackPacket(p)[BLOCK_DATA_BYTES..] == PackInt(p.count);
  }

  /** Reading n packets where ps is written, cut off after length bytes. */
  lemma {:induction false} PullPacked(b: Bytes, ps: seq<Packet>, idx: nat, length: nat)
    requires idx <= length <= |b| && PackPackets(ps) <= b[idx..]
    ensures PullPackets(b[..length], |ps|, idx) == if idx + PACKET * |ps| <= length then Some(ps) else None
  {
    hide PullPacket, PackPacket;
    if ps != [] {
      assert PackPackets(ps)[..PACKET] == PackPacket(ps[0]);
      assert b[idx..idx + PACKET] == b[idx..][..PACKET] == PackPacket(ps[0]);
      if idx + PACKET <= length {
        assert PackPackets(ps)[PACKET..] == PackPackets(ps[1..]);
        assert b[idx + PACKET..] == b[idx..][PACKET..];
        PullPacked(b, ps[1..], idx + PACKET, length);
        assert b[..length][idx..idx + PACKET] == b[idx..idx + PACKET];
        PacketRoundTrip(ps[0]);
        assert [ps[0]] + ps[1..] == ps;
      }
    }
  }

  lemma HeaderRoundTrip(b: Bytes, x: Int, z: Int, n: Int)
    requires Header(x, z, n) <= b
    ensures PullInt(b[..INT_BYTES]) == x && PullInt(b[INT_BYTES..2 * INT_BYTES]) == z
    ensures PullInt(b[2 * INT_BYTES..HEADER]) == n
  {
    assert b[..INT_BYTES] == Header(x, z, n)[..INT_BYTES] == PackInt(x);
    assert b[INT_BYTES..2 * INT_BYTES] == Header(x, z, n)[INT_BYTES..2 * INT_BYTES] == PackInt(z);
    assert b[2 * INT_BYTES..HEADER] == Header(x, z, n)[2 * INT_BYTES..HEADER] == PackInt(n);
    hide PullInt, PackInt;
    IntRoundTrip(x);
    IntRoundTrip(z);
    IntRoundTrip(n);
  }

  lemma {:induction false} PacketAt(ps: seq<Packet>, k: nat)
    requires k < |ps|
    ensures PACKET * k + PACKET <= |PackPackets(ps)|
    ensures PackPackets(ps)[PACKET * k..PACKET * k + PACKET] == PackPacket(ps[k])
  {
    hide PackPacket;
    if k > 0 {
      PacketAt(ps[1..], k - 1);
      var rest := PackPackets(ps[1..]);
      assert PackPackets(ps)[PACKET..] == rest;
      assert PackPackets(ps)[PACKET * k..PACKET * k + PACKET] == rest[PACKET * (k - 1)..PACKET * (k - 1) + PACKET];
    }
  }

  /** Where everything is: x, z and the number of packets in the first 12 bytes; then 7 bytes
      for each packet, its block and its count. */
  lemma Layout(c: CompressedChunk, k: nat)
    requires k < |c.packets|
    ensures var b, at := Encode(c), 12 + 7 * k;
      && at + 7 <= |b|
      && b[0..4] == PackInt(c.x) && b[4..8] == PackInt(c.z) && b[8..12] == PackInt(c.packetCount)
      && b[at] == c.packets[k].data.b0 && b[at + 1] == c.packets[k].data.b1 && b[at + 2] == c.packets[k].data.b2
      && b[at + 3..at + 7] == PackInt(c.packets[k].count)
  {
    hide PackInt, PackPackets;
    var b, at, p := Encode(c), 12 + 7 * k, c.packets[k];
    PacketAt(c.packets, k);
    assert b[..12] == Header(c.x, c.z, c.packetCount) && b[12..] == PackPackets(c.packets);
    assert b[0..4] == b[..12][0..4] && b[4..8] == b[..12][4..8] && b[8..12] == b[..12][8..12];
    assert b[at..at + 7] == b[12..][7 * k..7 * k + 7] == PackPacket(p);
    assert b[at..at + 7][3..] == PackInt(p.count) && b[at..at + 7][..3] == PackBlock(p.data);
    assert b[at + 3..at + 7] == b[at..at + 7][3..];
  }

  /** A buffer that starts with an encoded chunk is decoded to that chunk if it was not cut
      off before the chunk's end, and has 15 bytes at least; otherwise it is refused. What
      follows the chunk is ignored. */
  lemma DecodeEncode(c: CompressedChunk, junk: Bytes, length: nat)
    requires WellFormed(c) && length <= |Encode(c) + junk|
    ensures Decode((Encode(c) + junk)[..length])
         == if |Encode(c)| <= length && HEADER + BLOCK_DATA_BYTES <= length then Some(c) else None
  {
    hide PullPackets, PackPackets, PullInt, Header;
    var b := Encode(c) + junk;
    var cut := b[..length];
    if length >= HEADER + BLOCK_DATA_BYTES {
      assert cut[..HEADER] == b[..HEADER] == Header(c.x, c.z, c.packetCount);
      HeaderRoundTrip(cut, c.x, c.z, c.packetCount);
      assert b[HEADER..] == PackPackets(c.packets) + junk;
      PullPacked(b, c.packets, HEADER, length);
    }
  }

  /** The other way round: whatever is decoded, unless it claims a negative number of
      packets, is an encoding, followed by anything. */
  lemma EncodeDecode(b: Bytes)
    ensures Decode(b).Some? && Decode(b).value.packetCount >= 0
        ==> WellFormed(Decode(b).value) && Encode(Decode(b).value) <= b
  {
    if Decode(b).Some? && Decode(b).value.packetCount >= 0 {
      hide PullInt, PackInt, PackPackets, PullPackets;
      var c := Decode(b).value;
      PackPulled(b[..INT_BYTES]);
      PackPulled(b[INT_BYTES..2 * INT_BYTES]);
      PackPulled(b[2 * INT_BYTES..HEADER]);
      PackPulledPackets(b, c.packetCount, HEADER);
      assert b == b[..INT_BYTES] + b[INT_BYTES..2 * INT_BYTES] + b[2 * INT_BYTES..HEADER] + b[HEADER..];
    }
  }

  /** Every four bytes are the bytes of an int. */
  lemma PackPulled(b: Bytes)
    requires |b| == INT_BYTES
    ensures PackInt(PullInt(b)) == b
  {
    hide AsInt;
    var v := PullInt(b);
    Powers();
    var high: int := if b[0] < 0x80 then b[0] as int else b[0] as int - 0x100;
    assert v == high * 0x100_0000 + b[1] as int * 0x1_0000 + b[2] as int * 0x100 + b[3] as int;
    assert v / 0x100 == high * 0x1_0000 + b[1] as int * 0x100 + b[2] as int;
    assert v / 0x1_0000 == high * 0x100 + b[1] as int;
    assert v / 0x100_0000 == high;
  }

  lemma FirstPulled(b: Bytes, n: nat, idx: nat)
    requires n > 0 && PullPackets(b, n, idx).Some?
    ensures idx + PACKET <= |b| && PullPackets(b, n - 1, idx + PACKET).Some?
    ensures PullPackets(b, n, idx).value ==
      [PullPacket(b[idx..idx + PACKET])] + PullPackets(b, n - 1, idx + PACKET).value
  {
  }

  lemma PackFirst(p: Packet, ps: seq<Packet>)
    ensures PackPackets([p] + ps) == PackPacket(p) + PackPackets(ps)
  {
    assert ([p] + ps)[1..] == ps;
  }

  lemma {:induction false} PackPulledPackets(b: Bytes, n: nat, idx: nat)
    requires PullPackets(b, n, idx).Some? && idx <= |b|
    ensures PackPackets(PullPackets(b, n, idx).value) <= b[idx..]
    decreases n
  {
    if n > 0 {
      hide PullPacket, PackPacket, PackPackets, PullPackets;
      FirstPulled(b, n, idx);
      PackPulledPackets(b, n - 1, idx + PACKET);
      var one, rest := b[idx..idx + PACKET], PullPackets(b, n - 1, idx + PACKET).value;
      PackPulledPacket(one);
      PackFirst(PullPacket(one), rest);
      assert b[idx..] == one + b[idx + PACKET..];
    }
  }

  lemma PackPulledPacket(b: Bytes)
    requires |b| == PACKET
    ensures PackPacket(PullPacket(b)) == b
  {
    hide PackInt, PullInt;
    PackPulled(b[BLOCK_DATA_BYTES..]);
  }

  lemma {:induction false} PackPacketsAppend(ps: seq<Packet>, p: Packet)
    ensures PackPackets(ps + [p]) == PackPackets(ps) + PackPacket(p)
  {
    hide PackPacket;
    if ps == [] {
      assert PackPackets([p]) == PackPacket(p) + PackPackets([]);
    } else {
      assert (ps + [p])[1..] == ps[1..] + [p];
      PackPacketsAppend(ps[1..], p);
    }
  }

  // ------------------------------------------------------------------- runs

  function Repeat(b: Block, n: int): (r: seq<Block>) {
    seq(if n < 0 then 0 else n, _ => b)
  }

  /** The blocks that packets stand for. A negative count stands for none. */
  function Expand(ps: seq<Packet>): seq<Block> {
    if ps == [] then [] else Repeat(ps[0].data, ps[0].count) + Expand(ps[1..])
  }

  const BLOCKS := 0x1_0000

  /** How many blocks from i on are equal to `ref`. */
  function Run(blocks: seq<Block>, ref: Block, i: nat): (n: nat)
    requires i <= |blocks|
    ensures i + n <= |blocks|
    ensures blocks[i..i + n] == Repeat(ref, n)
    ensures i + n < |blocks| ==> blocks[i + n] != ref
    decreases |blocks| - i
  {
    if i < |blocks| && blocks[i] == ref then
      var n := Run(blocks, ref, i + 1);
      assert blocks[i..i + 1 + n] == [ref] + Repeat(ref, n);
      1 + n
    else 0
  }

  function Runs(blocks: seq<Block>, i: nat): seq<Packet>
    requires i <= |blocks| <= BLOCKS
    decreases |blocks| - i
  {
    if i == |blocks| then []
    else
      var n := Run(blocks, blocks[i], i);
      [Packet(n, blocks[i])] + Runs(blocks, i + n)
  }

  /** Segments that are not empty and cannot be joined. */
  predicate Maximal(ps: seq<Packet>) {
    && (forall k :: 0 <= k < |ps| ==> ps[k].count > 0)
    && (forall k :: 0 < k < |ps| ==> ps[k - 1].data != ps[k].data)
  }

  lemma MaximalPrepend(p: Packet, ps: seq<Packet>)
    requires p.count > 0 && Maximal(ps) && (ps != [] ==> p.data != ps[0].data)
    ensures Maximal([p] + ps)
  {
  }

  lemma MaximalRest(ps: seq<Packet>)
    requires Maximal(ps) && ps != []
    ensures Maximal(ps[1..]) && ps[0].count > 0
  {
  }

  /** The runs stand for the blocks, and they are maximal. */
  lemma {:induction false} RunsExpand(blocks: seq<Block>, i: nat)
    requires i <= |blocks| <= BLOCKS
    ensures Expand(Runs(blocks, i)) == blocks[i..]
    ensures Maximal(Runs(blocks, i)) && |Runs(blocks, i)| <= |blocks| - i
    ensures i < |blocks| ==> |Runs(blocks, i)| > 0 && Runs(blocks, i)[0].data == blocks[i]
    decreases |blocks| - i
  {
    hide Run, Runs, Maximal, Expand;
    RunsStep(blocks, i);
    if i < |blocks| {
      var n := Run(blocks, blocks[i], i);
      RunsExpand(blocks, i + n);
      MaximalPrepend(Packet(n, blocks[i]), Runs(blocks, i + n));
      ExpandPrepend(Packet(n, blocks[i]), Runs(blocks, i + n));
      assert blocks[i..] == blocks[i..i + n] + blocks[i + n..];
    } else {
      assert Expand([]) == [] && Maximal([]) by { NoPackets(); }
    }
  }

  lemma RunsStep(blocks: seq<Block>, i: nat)
    requires i <= |blocks| <= BLOCKS
    ensures i == |blocks| ==> Runs(blocks, i) == []
    ensures i < |blocks| ==>
      var n := Run(blocks, blocks[i], i);
      n > 0 && Runs(blocks, i) == [Packet(n, blocks[i])] + Runs(blocks, i + n)
  {
  }

  lemma ExpandPrepend(p: Packet, ps: seq<Packet>)
    ensures Expand([p] + ps) == Repeat(p.data, p.count) + Expand(ps)
  {
    assert ([p] + ps)[1..] == ps;
  }

  lemma NoPackets()
    ensures Expand([]) == [] && Maximal([])
  {
  }

  /** They are the only maximal segments the blocks have. */
  lemma {:induction false} RunsAreTheOnlyOnes(blocks: seq<Block>, i: nat, ps: seq<Packet>)
    requires i <= |blocks| <= BLOCKS && Maximal(ps) && Expand(ps) == blocks[i..]
    ensures ps == Runs(blocks, i)
    decreases |ps|
  {
    hide Run, Runs, Repeat, Maximal, Expand;
    RunsStep(blocks, i);
    if ps == [] {
      NoPackets();
      assert i == |blocks|;
    } else {
      FirstSegment(blocks, i, ps);
      MaximalRest(ps);
      RunsAreTheOnlyOnes(blocks, i + ps[0].count as int, ps[1..]);
      assert ps == [ps[0]] + ps[1..];
    }
  }

  lemma FirstSegment(blocks: seq<Block>, i: nat, ps: seq<Packet>)
    requires i <= |blocks| <= BLOCKS && Maximal(ps) && ps != [] && Expand(ps) == blocks[i..]
    ensures i < |blocks| && blocks[i] == ps[0].data
    ensures var n: int := ps[0].count;
      n == Run(blocks, blocks[i], i) && i + n <= |blocks| && Expand(ps[1..]) == blocks[i + n..]
  {
    var n: int, d, rest := ps[0].count, ps[0].data, Expand(ps[1..]);
    assert blocks[i..] == Repeat(d, n) + rest;
    assert blocks[i..][0] == d;
    assert rest == blocks[i..][n..] == blocks[i + n..];
    assert blocks[i..i + n] == Repeat(d, n);
    if |ps| > 1 {
      assert rest[0] == ps[1].data;
    }
    RunIs(blocks, d, i, n);
  }

  lemma {:induction false} RunIs(blocks: seq<Block>, d: Block, i: nat, n: nat)
    requires i + n <= |blocks| && blocks[i..i + n] == Repeat(d, n)
    requires i + n < |blocks| ==> blocks[i + n] != d
    ensures Run(blocks, d, i) == n
  {
    RunSkips(blocks, d, i, n);
  }

  lemma RunSkips(blocks: seq<Block>, d: Block, i: nat, n: nat)
    requires i + n <= |blocks| && blocks[i..i + n] == Repeat(d, n)
    ensures Run(blocks, d, i) == n + Run(blocks, d, i + n)
  {
  }

  /** And no list of packets that stands for the blocks is shorter. */
  lemma {:induction false} RunsAreFewest(blocks: seq<Block>, i: nat, ps: seq<Packet>)
    requires i <= |blocks| <= BLOCKS && Expand(ps) == blocks[i..]
    ensures |Runs(blocks, i)| <= |ps|
    decreases |ps|
  {
    hide Run, Runs, Repeat;
    if ps == [] {
      NoRuns(blocks, i);
    } else {
      var n := if ps[0].count < 0 then 0 else ps[0].count as int;
      var d := ps[0].data;
      RepeatLength(d, ps[0].count);
      assert blocks[i..] == Repeat(d, n) + Expand(ps[1..]);
      assert blocks[i..i + n] == blocks[i..][..n];
      assert blocks[i + n..] == blocks[i..][n..];
      RunsAreFewest(blocks, i + n, ps[1..]);
      RunsGrowByOne(blocks, d, i, n);
    }
  }

  lemma NoRuns(blocks: seq<Block>, i: nat)
    requires i == |blocks| <= BLOCKS
    ensures Runs(blocks, i) == []
  {
  }

  lemma RepeatLength(d: Block, n: int)
    ensures |Repeat(d, n)| == if n < 0 then 0 else n
    ensures n < 0 ==> Repeat(d, n) == Repeat(d, 0)
  {
  }

  lemma RunsGrowByOne(blocks: seq<Block>, d: Block, i: nat, n: nat)
    requires i + n <= |blocks| <= BLOCKS && blocks[i..i + n] == Repeat(d, n)
    ensures |Runs(blocks, i)| <= 1 + |Runs(blocks, i + n)|
  {
    if n > 0 {
      assert blocks[i] == blocks[i..i + n][0];
      RunSkips(blocks, d, i, n);
    }
  }

  // ----------------------------------------------------------- whole chunks

  const AIR := Block(0, 0, 0)

  /** The bytes of a chunk with these blocks. */
  function Compressed(x: Int, z: Int, blocks: seq<Block>): Bytes
    requires |blocks| <= BLOCKS
  {
    RunsExpand(blocks, 0);
    Encode(CompressedChunk(x, z, |Runs(blocks, 0)|, Runs(blocks, 0)))
  }

  predicate IsIndex(j: int) { 0 <= j < BLOCKS }

  /** Unpacking from index idx on writes to no index outside the array of blocks. */
  predicate InBounds(ps: seq<Packet>, idx: nat) {
    ps != [] ==>
      && (forall j :: idx <= j < idx + |Repeat(ps[0].data, ps[0].count)| ==> IsIndex(j))
      && InBounds(ps[1..], idx + |Repeat(ps[0].data, ps[0].count)|)
  }

  /** The array is overrun exactly by packets that stand for more blocks than a chunk has. */
  lemma {:induction false} InBoundsIff(ps: seq<Packet>, idx: nat)
    requires idx <= BLOCKS
    ensures InBounds(ps, idx) <==> idx + |Expand(ps)| <= BLOCKS
  {
    if ps != [] {
      var next := idx + |Repeat(ps[0].data, ps[0].count)|;
      if next <= BLOCKS {
        InBoundsIff(ps[1..], next);
      } else {
        assert !IsIndex(next - 1);
      }
    }
  }

  /** A buffer can be refused; its packets can overrun the array of blocks; or it gives a
      chunk. */
  datatype Outcome = Refused | Overrun | Done(x: Int, z: Int, blocks: seq<Block>)

  /** What a buffer is decompressed to: the blocks its packets stand for, then air. */
  function Decompressed(b: Bytes): Outcome {
    match Decode(b)
    case None => Refused
    case Some(c) =>
      if !InBounds(c.packets, 0) then Overrun
      else Done(c.x, c.z, Expand(c.packets) + Repeat(AIR, BLOCKS - |Expand(c.packets)|))
  }

  /** Decompressing what compression made gives back the chunk, whatever follows it. A
      buffer that lacks some of it is refused. The array is never overrun. */
  lemma ChunkRoundTrip(x: Int, z: Int, blocks: seq<Block>, junk: Bytes, length: nat)
    requires |blocks| == BLOCKS && length <= |Compressed(x, z, blocks) + junk|
    ensures var b := (Compressed(x, z, blocks) + junk)[..length];
      Decompressed(b) == if |Compressed(x, z, blocks)| <= length then Done(x, z, blocks) else Refused
  {
    hide Runs, Expand, Encode, Decode, InBounds;
    RunsExpand(blocks, 0);
    DecodeEncode(CompressedChunk(x, z, |Runs(blocks, 0)|, Runs(blocks, 0)), junk, length);
    InBoundsIff(Runs(blocks, 0), 0);
    assert blocks[0..] == blocks;
    assert blocks + Repeat(AIR, 0) == blocks;
  }

  /** Nineteen bytes that are not refused and overrun the array: one packet, one block more
      than a chunk has. */
  lemma OverrunningBuffer() returns (b: Bytes)
    ensures |b| == 19 && Decompressed(b) == Overrun
  {
    var ps := [Packet(0x1_0001, AIR)];
    var c := CompressedChunk(0, 0, 1, ps);
    b := Encode(c);
    assert Expand(ps) == Repeat(AIR, 0x1_0001) + Expand([]);
    InBoundsIff(ps, 0);
    hide Encode, Decode, InBounds, Expand, Repeat;
    DecodeEncode(c, [], 19);
    assert (b + [])[..19] == b;
  }
}
