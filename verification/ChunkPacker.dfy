/** Cutting the waves of a plan into numbered chunks of bounded size
    (services/finance-cost-orchestrator/internal/orchestrator/chunk_packer.go). */
module ChunkPacker {
  import opened Common
  import opened Dependencies
  import opened PlanTheorems
  import opened Sorting
  import opened WavePlanner

  /** The part of a ChunkSpec the packer fills in. */
  datatype Chunk = Chunk(number: int, waveNo: int, products: seq<int>)

  datatype PackedWave = PackedWave(number: int, chunks: seq<Chunk>)

  const DEFAULT_CHUNK_SIZE := 50

  function EffectiveSize(chunkSize: int, maxChunkSize: int): (size: int)
    ensures size > 0
    ensures maxChunkSize > 0 ==> size <= maxChunkSize
    ensures chunkSize > 0 && (maxChunkSize <= 0 || chunkSize <= maxChunkSize) ==> size == chunkSize
    ensures 0 < maxChunkSize < chunkSize ==> size == maxChunkSize
    ensures chunkSize <= 0 ==> size == if 0 < maxChunkSize < 50 then maxChunkSize else 50
  {
    var size := if chunkSize <= 0 then DEFAULT_CHUNK_SIZE else chunkSize;
    if maxChunkSize > 0 && size > maxChunkSize then maxChunkSize else size
  }

  ghost function Products(chunks: seq<Chunk>): seq<int> {
    if chunks == [] then [] else Products(chunks[..|chunks| - 1]) + chunks[|chunks| - 1].products
  }

  ghost function AllChunks(packed: seq<PackedWave>): seq<Chunk> {
    if packed == [] then [] else AllChunks(packed[..|packed| - 1]) + packed[|packed| - 1].chunks
  }

  /** The chunks of one wave: its products in order, every chunk full but perhaps the last. */
  ghost predicate PacksWave(wave: Wave, size: int, packed: PackedWave) {
    && packed.number == wave.number
    && Products(packed.chunks) == wave.products
    && forall i :: 0 <= i < |packed.chunks| ==>
      && packed.chunks[i].waveNo == wave.number
      && 0 < |packed.chunks[i].products| <= size
      && (i < |packed.chunks| - 1 ==> |packed.chunks[i].products| == size)
  }

  /** Chunk numbers run 1, 2, 3, ... through the whole job. */
  ghost predicate Numbered(chunks: seq<Chunk>) {
    forall i :: 0 <= i < |chunks| ==> chunks[i].number == i + 1
  }

  ghost predicate IsPacking(waves: seq<Wave>, size: int, packed: seq<PackedWave>) {
    && |packed| == |waves|
    && (forall k :: 0 <= k < |packed| ==> PacksWave(waves[k], size, packed[k]))
    && Numbered(AllChunks(packed))
  }

  method PackChunks(plan: Option<WavePlan>, chunkSize: int, maxChunkSize: int)
    returns (out: seq<PackedWave>)
    ensures plan.None? ==> out == []
    ensures plan.Some? ==> IsPacking(plan.value.waves, EffectiveSize(chunkSize, maxChunkSize), out)
  {
    out := [];
    if plan.None? {
      return;
    }
    var size := EffectiveSize(chunkSize, maxChunkSize);
    var waves := plan.value.waves;
    var globalChunkNumber := 0;
    for k := 0 to |waves|
      invariant IsPacking(waves[..k], size, out)
      invariant globalChunkNumber == |AllChunks(out)|
    {
      var wave := waves[k];
      var chunks := PackWave(wave, size, globalChunkNumber);
      globalChunkNumber := globalChunkNumber + |chunks|;
      AppendPacked(waves[..k], wave, size, out, chunks);
      assert waves[..k + 1] == waves[..k] + [wave];
      out := out + [PackedWave(wave.number, chunks)];
    }
    assert waves[..|waves|] == waves;
  }

  lemma AppendPacked(waves: seq<Wave>, wave: Wave, size: int, out: seq<PackedWave>, chunks: seq<Chunk>)
    requires IsPacking(waves, size, out)
    requires PacksWave(wave, size, PackedWave(wave.number, chunks))
    requires forall i :: 0 <= i < |chunks| ==> chunks[i].number == |AllChunks(out)| + i + 1
    ensures IsPacking(waves + [wave], size, out + [PackedWave(wave.number, chunks)])
    ensures |AllChunks(out + [PackedWave(wave.number, chunks)])| == |AllChunks(out)| + |chunks|
  {
    var more := out + [PackedWave(wave.number, chunks)];
    assert more[..|out|] == out;
    assert AllChunks(more) == AllChunks(out) + chunks;
  }

  /** The inner loop: one wave, numbered from `first` + 1. */
  method PackWave(wave: Wave, size: int, first: int) returns (chunks: seq<Chunk>)
    requires size > 0
    ensures PacksWave(wave, size, PackedWave(wave.number, chunks))
    ensures forall i :: 0 <= i < |chunks| ==> chunks[i].number == first + i + 1
  {
    chunks := [];
    var i := 0;
    while i < |wave.products|
      invariant 0 <= i
      invariant Products(chunks) == wave.products[..Min(i, |wave.products|)]
      invariant forall c :: 0 <= c < |chunks| ==>
        && chunks[c].number == first + c + 1
        && chunks[c].waveNo == wave.number
        && 0 < |chunks[c].products| <= size
        && (c < |chunks| - 1 || i <= |wave.products| ==> |chunks[c].products| == size)
      decreases |wave.products| - i
    {
      var end := Min(i + size, |wave.products|);
      var c := Chunk(first + |chunks| + 1, wave.number, wave.products[i..end]);
      assert wave.products[..end] == wave.products[..i] + wave.products[i..end];
      assert (chunks + [c])[..|chunks|] == chunks;
      chunks := chunks + [c];
      i := i + size;
    }
    assert wave.products[..|wave.products|] == wave.products;
  }

  // ---- Where a product goes ----

  lemma {:induction false} FullLength(a: seq<Chunk>, size: int)
    requires forall i :: 0 <= i < |a| ==> |a[i].products| == size
    ensures |Products(a)| == |a| * size
  {
    if a != [] {
      FullLength(a[..|a| - 1], size);
      assert |a| * size == (|a| - 1) * size + size;
    }
  }

  /** Where the i-th piece starts in the concatenation. */
  lemma {:induction false} PieceAt(a: seq<Chunk>, i: nat)
    requires i < |a|
    ensures |Products(a[..i])| + |a[i].products| <= |Products(a)|
    ensures Products(a)[|Products(a[..i])|..][..|a[i].products|] == a[i].products
    decreases |a|
  {
    var front := a[..|a| - 1];
    assert Products(a) == Products(front) + a[|a| - 1].products;
    if i < |front| {
      PieceAt(front, i);
      assert front[..i] == a[..i];
    }
  }

  lemma PieceEntry(a: seq<Chunk>, i: nat, x: nat)
    requires i < |a| && x < |a[i].products|
    ensures |Products(a[..i])| + x < |Products(a)|
    ensures Products(a)[|Products(a[..i])| + x] == a[i].products[x]
  {
    PieceAt(a, i);
    var s := |Products(a[..i])|;
    assert Products(a)[s..][..|a[i].products|][x] == Products(a)[s + x];
  }

  /** The packing is determined: entry x of the i-th chunk of a wave is the wave's product
      number i * size + x. */
  lemma PackedPosition(wave: Wave, size: int, packed: PackedWave, i: nat, x: nat)
    requires PacksWave(wave, size, packed)
    requires i < |packed.chunks| && x < |packed.chunks[i].products|
    ensures 0 <= i * size + x < |wave.products|
    ensures packed.chunks[i].products[x] == wave.products[i * size + x]
  {
    PieceEntry(packed.chunks, i, x);
    var front := packed.chunks[..i];
    assert |front| == i;
    FullLength(front, size);
  }

  /** As many chunks as the products need, and no more. */
  lemma ChunkCount(wave: Wave, size: int, packed: PackedWave)
    requires PacksWave(wave, size, packed)
    ensures |wave.products| <= |packed.chunks| * size
    ensures packed.chunks != [] ==> |wave.products| > (|packed.chunks| - 1) * size
  {
    var n := |packed.chunks|;
    if n > 0 {
      FullLength(packed.chunks[..n - 1], size);
      assert n * size == (n - 1) * size + size;
    }
  }

  /** The chunks of wave k carry the numbers that follow those of the waves before it. */
  lemma {:induction false} NumberAt(packed: seq<PackedWave>, k: nat, i: nat)
    requires Numbered(AllChunks(packed)) && k < |packed| && i < |packed[k].chunks|
    ensures packed[k].chunks[i] in AllChunks(packed)
    ensures packed[k].chunks[i].number == |AllChunks(packed[..k])| + i + 1
    decreases |packed|
  {
    var front := packed[..|packed| - 1];
    var last := packed[|packed| - 1].chunks;
    assert AllChunks(packed) == AllChunks(front) + last;
    if k < |front| {
      assert Numbered(AllChunks(front)) by {
        forall j | 0 <= j < |AllChunks(front)| ensures AllChunks(front)[j].number == j + 1 {
          assert AllChunks(packed)[j] == AllChunks(front)[j];
        }
      }
      NumberAt(front, k, i);
      assert front[..k] == packed[..k];
    } else {
      assert AllChunks(packed)[|AllChunks(front)| + i] == last[i];
    }
  }

  lemma {:induction false} ChunkHasWave(packed: seq<PackedWave>, c: Chunk) returns (k: nat, i: nat)
    requires c in AllChunks(packed)
    ensures k < |packed| && i < |packed[k].chunks| && packed[k].chunks[i] == c
    decreases |packed|
  {
    var front := packed[..|packed| - 1];
    var last := packed[|packed| - 1].chunks;
    if j :| 0 <= j < |last| && last[j] == c {
      k, i := |packed| - 1, j;
    } else {
      assert c in AllChunks(front) + last;
      k, i := ChunkHasWave(front, c);
    }
  }

  lemma {:induction false} ProductHasChunk(chunks: seq<Chunk>, n: int)
    ensures n in Products(chunks) <==> exists i :: 0 <= i < |chunks| && n in chunks[i].products
  {
    if chunks != [] {
      ProductHasChunk(chunks[..|chunks| - 1], n);
    }
  }

  lemma {:induction false} AllChunksMonotone(packed: seq<PackedWave>, j: nat, k: nat)
    requires j < k <= |packed|
    ensures |AllChunks(packed[..j])| + |packed[j].chunks| <= |AllChunks(packed[..k])|
    decreases k
  {
    assert packed[..k][..k - 1] == packed[..k - 1];
    if j < k - 1 {
      AllChunksMonotone(packed, j, k - 1);
    }
  }

  /** Which chunk a planned product is in, and that its wave is the planned one. */
  lemma ChunkOfProduct(g: Deps, plan: WavePlan, size: int, packed: seq<PackedWave>, c: Chunk, n: int)
    requires IsPlan(g, plan) && IsPacking(plan.waves, size, packed)
    requires c in AllChunks(packed) && n in c.products
    ensures Scheduled(plan, c.waveNo, n)
  {
    var k, i := ChunkHasWave(packed, c);
    ProductHasChunk(packed[k].chunks, n);
    assert PacksWave(plan.waves[k], size, packed[k]);
  }

  /** Every scheduled product is in a chunk of its own wave. */
  lemma ScheduledIsPacked(g: Deps, plan: WavePlan, size: int, packed: seq<PackedWave>, k: nat, n: int)
    returns (c: Chunk)
    requires IsPlan(g, plan) && IsPacking(plan.waves, size, packed) && Scheduled(plan, k, n)
    ensures c in AllChunks(packed) && n in c.products && c.waveNo == k
  {
    assert PacksWave(plan.waves[k], size, packed[k]);
    ProductHasChunk(packed[k].chunks, n);
    var i :| 0 <= i < |packed[k].chunks| && n in packed[k].chunks[i].products;
    c := packed[k].chunks[i];
    NumberAt(packed, k, i);
  }

  /** Chunk numbers respect dependencies: the chunk of an upstream product belongs to an
      earlier wave and has a smaller number. */
  lemma UpstreamChunkIsEarlier(g: Deps, plan: WavePlan, size: int, packed: seq<PackedWave>, c: Chunk, d: int, u: int)
    returns (b: Chunk)
    requires Closed(g) && IsPlan(g, plan) && IsPacking(plan.waves, size, packed)
    requires c in AllChunks(packed) && d in c.products && DependsOn(g, d, u)
    ensures b in AllChunks(packed) && u in b.products
    ensures b.waveNo < c.waveNo && b.number < c.number
  {
    ChunkOfProduct(g, plan, size, packed, c, d);
    WaveIsOnePlusLatest(g, plan, c.waveNo, d);
    var j :| j < c.waveNo && Scheduled(plan, j, u);
    b := ScheduledIsPacked(g, plan, size, packed, j, u);
    var kc, ic := ChunkHasWave(packed, c);
    var kb, ib := ChunkHasWave(packed, b);
    assert PacksWave(plan.waves[kc], size, packed[kc]) && PacksWave(plan.waves[kb], size, packed[kb]);
    NumberAt(packed, kc, ic);
    NumberAt(packed, kb, ib);
    AllChunksMonotone(packed, kb, kc);
  }

  lemma PiecesInOrder(a: seq<Chunk>, i: nat, j: nat)
    requires i < j < |a|
    ensures |Products(a[..i])| + |a[i].products| <= |Products(a[..j])|
  {
    PieceAt(a[..j], i);
    assert a[..j][..i] == a[..i];
  }

  lemma DistinctPieces(a: seq<Chunk>, i: nat, x: nat, j: nat, y: nat)
    requires Distinct(Products(a))
    requires i < |a| && x < |a[i].products| && j < |a| && y < |a[j].products|
    requires a[i].products[x] == a[j].products[y]
    ensures i == j && x == y
  {
    PieceEntry(a, i, x);
    PieceEntry(a, j, y);
    if i < j {
      PiecesInOrder(a, i, j);
    } else if j < i {
      PiecesInOrder(a, j, i);
    }
  }

  /** A product is packed once: two places that hold it are the same place. */
  lemma PackedOnce(g: Deps, plan: WavePlan, size: int, packed: seq<PackedWave>,
                   k: nat, i: nat, x: nat, l: nat, j: nat, y: nat)
    requires IsPlan(g, plan) && IsPacking(plan.waves, size, packed)
    requires k < |packed| && i < |packed[k].chunks| && x < |packed[k].chunks[i].products|
    requires l < |packed| && j < |packed[l].chunks| && y < |packed[l].chunks[j].products|
    requires packed[k].chunks[i].products[x] == packed[l].chunks[j].products[y]
    ensures k == l && i == j && x == y
  {
    var n := packed[k].chunks[i].products[x];
    assert PacksWave(plan.waves[k], size, packed[k]) && PacksWave(plan.waves[l], size, packed[l]);
    ProductHasChunk(packed[k].chunks, n);
    ProductHasChunk(packed[l].chunks, n);
    assert Scheduled(plan, k, n) && Scheduled(plan, l, n);
    ExactlyOnePlace(g, plan, n);
    DistinctPieces(packed[k].chunks, i, x, j, y);
  }
}
