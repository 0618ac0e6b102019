/**
 The world mesh handed to the renderer, its deep copy and its release
 (include/game_data.h), and the frame loop that pairs the two (src/main.c).

 The double buffer's locks are modelled in DoubleBuffer; there, a mesh that is
 being copied is shown to stay live and in its slot.
 */
module WorldMesh {
  import opened Prelude

  const VBO_WIDTH: nat := 12
  const FLOATS_PER_MODEL_VERT: nat := 8

  // The layers of a world mesh, in the order copy_world_mesh takes them.
  const OPAQUE: nat := 0
  const TRANSPARENT: nat := 1
  const LIQUID: nat := 2
  const FOLIAGE: nat := 3
  const CUSTOM: nat := 4

  /** How many 32-bit cells one side or vertex takes. */
  function Width(layer: nat): (w: nat)
    ensures w > 0
  {
    if layer == CUSTOM then FLOATS_PER_MODEL_VERT else VBO_WIDTH
  }

  /** A layer's count and its block. A float is kept as its 32 bits. */
  datatype Layer = Layer(count: int, data: array?<int>)

  /** The blocks that malloc has handed out and free has not taken back. */
  class Heap {
    ghost var live: set<object>

    constructor ()
      ensures live == {}
    {
      live := {};
    }

    /** free: nothing for NULL; otherwise the block must be live, and is not after. */
    method Free(block: object?)
      requires block != null ==> block in live
      modifies this
      ensures live == old(live) - One(block)
    {
      live := live - One(block);
    }
  }

  function One(block: object?): set<object> {
    if block == null then {} else {block}
  }

  /** The blocks of the layers for which `which` says so. */
  function BlocksOf(layers: seq<Layer>): set<object> {
    if layers == [] then {} else One(layers[0].data) + BlocksOf(layers[1..])
  }

  class Mesh {
    const layers: seq<Layer>

    constructor (layers: seq<Layer>)
      ensures this.layers == layers
    {
      this.layers := layers;
    }

    predicate Valid() { |layers| == LAYERS && Unshared(layers) }

    /** The mesh and all its blocks. */
    function Blocks(): set<object> { {this} + BlocksOf(layers) }

    /** What `free_world_mesh` gives back: foliage and custom models only when their
        counts are positive. */
    function Released(): set<object>
      requires Valid()
    {
      {this} + BlocksOf(layers[..FOLIAGE])
      + (if layers[FOLIAGE].count > 0 then One(layers[FOLIAGE].data) else {})
      + (if layers[CUSTOM].count > 0 then One(layers[CUSTOM].data) else {})
    }
  }

  /** No block serves two layers. */
  predicate Unshared(layers: seq<Layer>) {
    forall i, j :: 0 <= i < j < |layers| && layers[i].data != null ==> layers[i].data != layers[j].data
  }

  /** Each block is as long as its count announces. */
  predicate Sized(layers: seq<Layer>) {
    forall i :: 0 <= i < |layers| ==> LongEnough(layers[i], Width(i))
  }

  predicate LongEnough(layer: Layer, width: nat) {
    layer.data != null && layer.count > 0 ==> layer.count * width <= layer.data.Length
  }

  /** A layer's cells: none without a block or with a count that is not positive. */
  function Cells(layer: Layer, width: nat): seq<int>
    requires LongEnough(layer, width)
    reads layer.data
  {
    if layer.data != null && layer.count > 0 then layer.data[..layer.count * width] else []
  }

  lemma {:induction false} BlocksOfMembers(layers: seq<Layer>)
    ensures forall i :: 0 <= i < |layers| && layers[i].data != null ==> layers[i].data in BlocksOf(layers)
    ensures forall o :: o in BlocksOf(layers) ==> exists i :: 0 <= i < |layers| && layers[i].data == o
  {
    if layers != [] {
      BlocksOfMembers(layers[1..]);
      forall o | o in BlocksOf(layers[1..]) ensures exists i :: 0 <= i < |layers| && layers[i].data == o {
        var i :| 0 <= i < |layers[1..]| && layers[1..][i].data == o;
        assert layers[i + 1].data == o;
      }
      forall i | 0 < i < |layers| && layers[i].data != null ensures layers[i].data in BlocksOf(layers) {
        assert layers[i] == layers[1..][i - 1];
      }
    }
  }

  lemma {:induction false} BlocksOfAppend(layers: seq<Layer>, layer: Layer)
    ensures BlocksOf(layers + [layer]) == BlocksOf(layers) + One(layer.data)
  {
    if layers == [] {
      assert layers + [layer] == [layer];
    } else {
      BlocksOfAppend(layers[1..], layer);
      assert (layers + [layer])[1..] == layers[1..] + [layer];
    }
  }

  lemma UnsharedAppend(layers: seq<Layer>, layer: Layer)
    requires Unshared(layers) && BlocksOf(layers) !! One(layer.data)
    ensures Unshared(layers + [layer])
  {
    BlocksOfMembers(layers);
  }

  lemma NoLayers()
    ensures BlocksOf([]) == {} && Unshared([])
  {
  }

  /** One layer of copy_world_mesh. */
  method CopyLayer(heap: Heap, src: Layer, width: nat) returns (copy: Layer)
    requires LongEnough(src, width)
    modifies heap
    ensures IsCopy(copy, src, width)
    ensures fresh(One(copy.data))
    ensures heap.live == old(heap.live) + One(copy.data)
  {
    if src.data != null && src.count > 0 {
      var size := src.count * width;
      var block := new int[size](i requires 0 <= i < size reads src.data => src.data[i]);
      heap.live := heap.live + {block};
      copy := Layer(src.count, block);
      assert block[..size] == src.data[..size];
    } else {
      copy := Layer(src.count, null);
    }
  }

  /** The copy holds the source's cells, in a block of its own if there are any. */
  predicate IsCopy(copy: Layer, src: Layer, width: nat)
    reads copy.data, src.data
  {
    && LongEnough(copy, width) && LongEnough(src, width)
    && copy.count == src.count
    && (copy.data == null <==> src.data == null || src.count <= 0)
    && Cells(copy, width) == Cells(src, width)
  }

  /** The five layers of copy_world_mesh. */
  method CopyLayers(heap: Heap, src: seq<Layer>) returns (copy: seq<Layer>)
    requires Sized(src)
    modifies heap
    ensures |copy| == |src| && Unshared(copy)
    ensures forall i :: 0 <= i < |src| ==> IsCopy(copy[i], src[i], Width(i))
    ensures fresh(BlocksOf(copy))
    ensures heap.live == old(heap.live) + BlocksOf(copy)
  {
    hide BlocksOf, Unshared, Cells;
    copy := [];
    assert BlocksOf([]) == {} && Unshared([]) by { NoLayers(); }
    for n := 0 to |src|
      invariant |copy| == n && Unshared(copy)
      invariant forall i :: 0 <= i < n ==> IsCopy(copy[i], src[i], Width(i))
      invariant fresh(BlocksOf(copy))
      invariant heap.live == old(heap.live) + BlocksOf(copy)
    {
      var layer := CopyLayer(heap, src[n], Width(n));
      BlocksOfAppend(copy, layer);
      UnsharedAppend(copy, layer);
      assert forall i :: 0 <= i < n ==> IsCopy(copy[i], src[i], Width(i));
      copy := copy + [layer];
    }
  }

  /** copy_world_mesh, from the slot's pointer on: a new mesh with the same cells in
      every layer that shares no block with any other, or NULL for NULL. All it
      allocates is what free_world_mesh will release. */
  method Copy(heap: Heap, src: Mesh?) returns (copy: Mesh?)
    requires src != null ==> |src.layers| == LAYERS && Sized(src.layers)
    modifies heap
    ensures copy == null <==> src == null
    ensures copy == null ==> heap.live == old(heap.live)
    ensures copy != null ==>
              && fresh(copy.Blocks())
              && copy.Valid()
              && (forall i :: 0 <= i < LAYERS ==> IsCopy(copy.layers[i], src.layers[i], Width(i)))
              && copy.Released() == copy.Blocks()
              && heap.live == old(heap.live) + copy.Blocks()
  {
    if src == null {
      return null;
    }
    var layers := CopyLayers(heap, src.layers);
    copy := new Mesh(layers);
    heap.live := heap.live + {copy};
    ReleasesEverything(copy);
  }

  /** free_world_mesh. A caller must pass NULL or a mesh all of whose released blocks
      are live and distinct; then exactly those are given back, each once. */
  method FreeMesh(heap: Heap, mesh: Mesh?)
    requires mesh != null ==> mesh.Valid() && mesh.Released() <= heap.live
    modifies heap
    ensures heap.live == old(heap.live) - if mesh == null then {} else mesh.Released()
  {
    if mesh == null {
      return;
    }
    var layers := mesh.layers;
    ThreeBlocks(layers[..FOLIAGE]);
    heap.Free(layers[TRANSPARENT].data);
    heap.Free(layers[OPAQUE].data);
    heap.Free(layers[LIQUID].data);
    if layers[FOLIAGE].count > 0 {
      heap.Free(layers[FOLIAGE].data);
    }
    if layers[CUSTOM].count > 0 {
      heap.Free(layers[CUSTOM].data);
    }
    heap.Free(mesh);
  }

  lemma ThreeBlocks(layers: seq<Layer>)
    requires |layers| == 3
    ensures BlocksOf(layers) == One(layers[0].data) + One(layers[1].data) + One(layers[2].data)
  {
    assert layers == [layers[0], layers[1]] + [layers[2]] == ([] + [layers[0]]) + [layers[1]] + [layers[2]];
    BlocksOfAppend([layers[0], layers[1]], layers[2]);
    BlocksOfAppend([layers[0]], layers[1]);
  }

  /** free_world_mesh releases all of a mesh exactly when no foliage or custom block
      hides behind a count that is not positive. */
  lemma ReleasesEverything(mesh: Mesh)
    requires mesh.Valid()
    ensures mesh.Released() == mesh.Blocks() <==>
      && (mesh.layers[FOLIAGE].data != null ==> mesh.layers[FOLIAGE].count > 0)
      && (mesh.layers[CUSTOM].data != null ==> mesh.layers[CUSTOM].count > 0)
  {
    var layers := mesh.layers;
    var first := layers[..FOLIAGE];
    assert layers == first + [layers[FOLIAGE]] + [layers[CUSTOM]];
    BlocksOfAppend(first, layers[FOLIAGE]);
    BlocksOfAppend(first + [layers[FOLIAGE]], layers[CUSTOM]);
    BlocksOfMembers(first);
    if layers[FOLIAGE].data != null && layers[FOLIAGE].count <= 0 {
      assert layers[FOLIAGE].data in mesh.Blocks() && layers[FOLIAGE].data !in mesh.Released();
    }
    if layers[CUSTOM].data != null && layers[CUSTOM].count <= 0 {
      assert layers[CUSTOM].data in mesh.Blocks() && layers[CUSTOM].data !in mesh.Released();
    }
  }

  /** A mesh for which free_world_mesh does not release everything. */
  method LeakingMesh() returns (mesh: Mesh)
    ensures fresh(mesh.Blocks()) && mesh.Valid() && Sized(mesh.layers)
    ensures mesh.layers[FOLIAGE].data != null && mesh.layers[FOLIAGE].data in mesh.Blocks() - mesh.Released()
  {
    var block := new int[0];
    var none := Layer(0, null);
    mesh := new Mesh([none, none, none, Layer(0, block), none]);
    BlocksOfMembers(mesh.layers);
    BlocksOfMembers(mesh.layers[..FOLIAGE]);
  }

  // ---------------------------------------------------- where meshes come from

  /** A chunk's mesh: how many sides or vertices it has for each layer. */
  datatype ChunkMesh = ChunkMesh(opaqueSides: int, transparentSides: int, liquidSides: int, foliageSides: int,
                                 customVerts: int)
  {
    function Count(layer: nat): int {
      if layer == OPAQUE then opaqueSides
      else if layer == TRANSPARENT then transparentSides
      else if layer == LIQUID then liquidSides
      else if layer == FOLIAGE then foliageSides
      else customVerts
    }
  }

  /** A layer's count summed over the chunks that are there. */
  function Total(packet: seq<Option<ChunkMesh>>, layer: nat): int {
    if packet == [] then 0 else
    var n := |packet| - 1;
    Total(packet[..n], layer) + if packet[n].None? then 0 else packet[n].value.Count(layer)
  }

  /** A chunk that is not there adds nothing, and one chunk alone gives its own counts. */
  lemma TotalOfOne(m: ChunkMesh)
    ensures forall i :: Total([None], i) == 0 == Total([], i)
    ensures Total([Some(m)], OPAQUE) == m.opaqueSides
    ensures Total([Some(m)], TRANSPARENT) == m.transparentSides
    ensures Total([Some(m)], LIQUID) == m.liquidSides
    ensures Total([Some(m)], FOLIAGE) == m.foliageSides
    ensures Total([Some(m)], CUSTOM) == m.customVerts
  {
    assert [Some(m)][..0] == [];
    var none: seq<Option<ChunkMesh>> := [None];
    assert none[..0] == [];
  }

  /** In every layer the counts of two packets add up. */
  lemma {:induction false} TotalOfBoth(a: seq<Option<ChunkMesh>>, b: seq<Option<ChunkMesh>>, layer: nat)
    ensures Total(a + b, layer) == Total(a, layer) + Total(b, layer)
  {
    if b == [] {
      assert a + b == a;
    } else {
      var n := |b| - 1;
      TotalOfBoth(a, b[..n], layer);
      assert (a + b)[..|a + b| - 1] == a + b[..n];
    }
  }

  /** So the order of the chunks does not matter, and nothing but their counts does. */
  lemma TotalIsTheSum(packet: seq<Option<ChunkMesh>>, k: nat)
    requires k < |packet|
    ensures forall i :: Total(packet, i) == Total([packet[k]], i) + Total(Without(packet, k), i)
  {
    forall i ensures Total(packet, i) == Total([packet[k]], i) + Total(Without(packet, k), i) {
      assert packet == packet[..k] + [packet[k]] + packet[k + 1..];
      TotalOfBoth(packet[..k] + [packet[k]], packet[k + 1..], i);
      TotalOfBoth(packet[..k], [packet[k]], i);
      TotalOfBoth(packet[..k], packet[k + 1..], i);
    }
  }

  /** create_world_mesh: each layer counts that layer's sides or vertices of all chunks, and
      has a block of the size for them exactly when there are any, so that free_world_mesh
      will release all of the mesh. */
  method Create(heap: Heap, packet: seq<Option<ChunkMesh>>) returns (mesh: Mesh)
    modifies heap
    ensures fresh(mesh.Blocks()) && mesh.Valid() && Sized(mesh.layers)
    ensures forall i :: 0 <= i < LAYERS ==>
              && mesh.layers[i].count == Total(packet, i)
              && (mesh.layers[i].data == null <==> Total(packet, i) <= 0)
    ensures forall i :: 0 <= i < LAYERS && mesh.layers[i].data != null ==>
              mesh.layers[i].data.Length == Total(packet, i) * if i == CUSTOM then 8 else 12
    ensures mesh.Released() == mesh.Blocks()
    ensures heap.live == old(heap.live) + mesh.Blocks()
  {
    hide BlocksOf, Unshared, Total;
    var totals := Totals(packet);
    var data := Allocate(heap, totals);
    var offsets := Offsets(packet);
    var layers := seq(LAYERS, i requires 0 <= i < LAYERS => Layer(offsets[i] / Width(i), data[i].data));
    forall i | 0 <= i < LAYERS ensures layers[i] == data[i] {
      Divided(Total(packet, i), i);
    }
    assert layers == data;
    mesh := new Mesh(layers);
    heap.live := heap.live + {mesh};
    ReleasesEverything(mesh);
  }

  lemma Divided(total: int, layer: nat)
    ensures total * Width(layer) / Width(layer) == total
  {
    if layer == CUSTOM {
      assert total * FLOATS_PER_MODEL_VERT / FLOATS_PER_MODEL_VERT == total;
    } else {
      assert total * VBO_WIDTH / VBO_WIDTH == total;
    }
  }

  /** The first pass. */
  method Totals(packet: seq<Option<ChunkMesh>>) returns (totals: seq<int>)
    ensures |totals| == LAYERS && forall i :: 0 <= i < LAYERS ==> totals[i] == Total(packet, i)
  {
    var totalOpaque, totalTransparent, totalLiquid, totalFoliage, totalCustom := 0, 0, 0, 0, 0;
    for k := 0 to |packet|
      invariant totalOpaque == Total(packet[..k], OPAQUE)
      invariant totalTransparent == Total(packet[..k], TRANSPARENT)
      invariant totalLiquid == Total(packet[..k], LIQUID)
      invariant totalFoliage == Total(packet[..k], FOLIAGE)
      invariant totalCustom == Total(packet[..k], CUSTOM)
    {
      assert packet[..k + 1][..k] == packet[..k];
      if packet[k].Some? {
        var mesh := packet[k].value;
        totalTransparent := totalTransparent + mesh.transparentSides;
        totalOpaque := totalOpaque + mesh.opaqueSides;
        totalLiquid := totalLiquid + mesh.liquidSides;
        totalFoliage := totalFoliage + mesh.foliageSides;
        totalCustom := totalCustom + mesh.customVerts;
      }
    }
    assert packet[..|packet|] == packet;
    totals := [totalOpaque, totalTransparent, totalLiquid, totalFoliage, totalCustom];
  }

  method Allocate(heap: Heap, totals: seq<int>) returns (layers: seq<Layer>)
    requires |totals| == LAYERS
    modifies heap
    ensures |layers| == LAYERS && Unshared(layers) && Sized(layers)
    ensures forall i :: 0 <= i < LAYERS ==> layers[i].count == totals[i] && (layers[i].data == null <==> totals[i] <= 0)
    ensures forall i :: 0 <= i < LAYERS && layers[i].data != null ==> layers[i].data.Length == totals[i] * Width(i)
    ensures fresh(BlocksOf(layers)) && heap.live == old(heap.live) + BlocksOf(layers)
  {
    layers := [];
    for n := 0 to LAYERS
      invariant |layers| == n && Unshared(layers) && Sized(layers)
      invariant forall i :: 0 <= i < n ==> layers[i].count == totals[i] && (layers[i].data == null <==> totals[i] <= 0)
      invariant forall i :: 0 <= i < n && layers[i].data != null ==> layers[i].data.Length == totals[i] * Width(i)
      invariant fresh(BlocksOf(layers)) && heap.live == old(heap.live) + BlocksOf(layers)
    {
      var layer := Layer(totals[n], null);
      if totals[n] > 0 {
        var block := new int[totals[n] * Width(n)];
        heap.live := heap.live + {block};
        layer := Layer(totals[n], block);
      }
      BlocksOfAppend(layers, layer);
      UnsharedAppend(layers, layer);
      layers := layers + [layer];
    }
  }

  /** The second pass, without the sides it writes: how far each block is filled. */
  method Offsets(packet: seq<Option<ChunkMesh>>) returns (offsets: seq<int>)
    ensures |offsets| == LAYERS && forall i :: 0 <= i < LAYERS ==> offsets[i] == Total(packet, i) * Width(i)
  {
    offsets := seq(LAYERS, _ => 0);
    for k := 0 to |packet|
      invariant |offsets| == LAYERS
      invariant forall i :: 0 <= i < LAYERS ==> offsets[i] == Total(packet[..k], i) * Width(i)
    {
      assert packet[..k + 1][..k] == packet[..k];
      if packet[k].Some? {
        var mesh := packet[k].value;
        offsets := seq(LAYERS, i requires 0 <= i < LAYERS => offsets[i] + mesh.Count(i) * Width(i));
      }
    }
    assert packet[..|packet|] == packet;
  }

  // ------------------------------------------------------------ the frame loop

  /** What other threads allocate and free while a frame is rendered. */
  datatype Others = Others(obtained: set<object>, freed: set<object>)

  /** The live blocks if only the other threads had run. */
  ghost function WithoutFrames(live: set<object>, others: seq<Others>): set<object> {
    if others == [] then live else
    var n := |others| - 1;
    WithoutFrames(live, others[..n]) + others[n].obtained - others[n].freed
  }

  /** The frame loop's copy, render and free, any number of times, of whatever mesh is
      published at each: the loop itself leaves no block behind and takes none away. */
  method RenderFrames(heap: Heap, published: seq<Mesh?>, ghost others: seq<Others>)
    requires forall k :: 0 <= k < |published| && published[k] != null ==>
               |published[k].layers| == LAYERS && Sized(published[k].layers)
    requires |others| == |published|
    modifies heap
    ensures heap.live == WithoutFrames(old(heap.live), others)
  {
    for frame := 0 to |published|
      invariant heap.live == WithoutFrames(old(heap.live), others[..frame])
    {
      ghost var before := heap.live;
      var mesh := Copy(heap, published[frame]);
      heap.live := heap.live + others[frame].obtained - others[frame].freed;
      FreeMesh(heap, mesh);
      assert heap.live == before + others[frame].obtained - others[frame].freed;
      assert others[..frame + 1][..frame] == others[..frame];
    }
    assert others[..|published|] == others;
  }
}
