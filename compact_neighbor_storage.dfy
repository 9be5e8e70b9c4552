/**
 * The neighbor storage of the compact-hashing neighborhood search
 * (src/core/fluidSolver/neighborhoodSearch/CompactHashingNeighborhoodSearch.cpp,
 * class NeighborStorage): one flat vector holding a block of
 * `neighborStorageSizePerParticle + 1` entries per particle, the neighbor
 * count first and the neighbor indices after it.
 *
 * Which particles are neighbors is decided by distance tests on float
 * positions in the nine grid cells around a particle; here the neighbors
 * found for a particle are given, in the order the search meets them.
 *
 * The block size and the particle count are particleAmount_t, 16 bits wide
 * (`CellStorage.Two16`); the collection size FindNeighbors passes in is
 * truncated to that width.
 */
module CompactNeighborStorage {
  import opened Wrappers
  import CellStorage

  /** The logic_error the search throws when a particle's block is full. */
  const StorageExceeded: string :=
    "Trying to add a new neighbor to the storage but the memory space allocated would be exceeded!"

  /** A particle's block: its neighbor count and its neighbor slots. */
  datatype Block = Block(count: nat, data: seq<nat>)

  /** Where block p starts when every block has `stride` entries. */
  function Start(p: nat, stride: nat): nat
    decreases p
  {
    if p == 0 then 0 else Start(p - 1, stride) + stride
  }

  /** The start is the product the source computes, `p * stride`. */
  lemma {:induction false} StartIsProduct(p: nat, stride: nat)
    ensures Start(p, stride) == p * stride
    decreases p
  {
    if p > 0 {
      StartIsProduct(p - 1, stride);
      assert (p - 1) * stride + stride == p * stride;
    }
  }

  /** A later block starts after the whole of an earlier one. */
  lemma {:induction false} StartLess(p: nat, q: nat, stride: nat)
    requires p < q
    ensures Start(p, stride) + stride <= Start(q, stride)
    decreases q
  {
    if p + 1 < q {
      StartLess(p, q - 1, stride);
    }
  }

  /**
   * Entry a of block p and entry b of block q are the same vector entry
   * exactly when they are the same entry of the same block.
   */
  lemma BlockPosition(stride: nat, p: nat, a: nat, q: nat, b: nat)
    requires a < stride && b < stride
    ensures Start(p, stride) + a == Start(q, stride) + b <==> p == q && a == b
  {
    if p < q {
      StartLess(p, q, stride);
    } else if q < p {
      StartLess(q, p, stride);
    }
  }

  /** Every entry of every block lies inside the vector. */
  lemma BlockInside(stride: nat, total: nat, p: nat)
    requires p < total
    ensures Start(p, stride) + stride <= Start(total, stride)
  {
    StartLess(p, total, stride);
  }

  /** Block p of the vector `ns` with blocks of `size + 1` entries. */
  function BlockOf(ns: seq<nat>, size: nat, p: nat): (b: Block)
    requires Start(p, size + 1) + size + 1 <= |ns|
    ensures |b.data| == size
  {
    var start := Start(p, size + 1);
    Block(ns[start], ns[start + 1..start + size + 1])
  }

  /** The blocks of the first `total` particles. */
  function ViewOf(ns: seq<nat>, size: nat, total: nat): (v: seq<Block>)
    requires |ns| == Start(total, size + 1)
    ensures |v| == total
    ensures forall p :: 0 <= p < total ==> |v[p].data| == size
  {
    seq(total, (p: int) requires 0 <= p < total =>
      BlockInside(size + 1, total, p);
      BlockOf(ns, size, p))
  }

  /** Block `b` with its entry a (0 the count, 1.. the slots) set to x. */
  function WithEntry(b: Block, a: nat, x: nat): Block
    requires 0 < a ==> a - 1 < |b.data|
  {
    if a == 0 then b.(count := x) else b.(data := b.data[a - 1 := x])
  }

  /**
   * Writing entry a of block p changes that entry of that block and nothing
   * else: the blocks do not overlap.
   */
  lemma {:induction false} ViewAfterWrite(ns: seq<nat>, size: nat, total: nat, p: nat, a: nat, x: nat)
    requires |ns| == Start(total, size + 1) && p < total && a <= size
    ensures Start(p, size + 1) + a < |ns|
    ensures ViewOf(ns[Start(p, size + 1) + a := x], size, total) ==
      ViewOf(ns, size, total)[p := WithEntry(ViewOf(ns, size, total)[p], a, x)]
  {
    var stride := size + 1;
    BlockInside(stride, total, p);
    var ns' := ns[Start(p, stride) + a := x];
    var v, v' := ViewOf(ns, size, total), ViewOf(ns', size, total);
    forall q | 0 <= q < total
      ensures v'[q] == v[p := WithEntry(v[p], a, x)][q]
    {
      BlockInside(stride, total, q);
      var start := Start(q, stride);
      assert v'[q] == BlockOf(ns', size, q) && v[q] == BlockOf(ns, size, q);
      if q == p {
        if a == 0 {
          assert ns'[start + 1..start + stride] == ns[start + 1..start + stride];
        } else {
          assert ns'[start] == ns[start];
          assert ns'[start + 1..start + stride] == ns[start + 1..start + stride][a - 1 := x];
        }
      } else {
        forall k | start <= k < start + stride
          ensures ns'[k] == ns[k]
        {
          BlockPosition(stride, p, a, q, k - start);
        }
        assert ns'[start + 1..start + stride] == ns[start + 1..start + stride];
      }
    }
  }

  /** std::vector::resize: the prefix kept, zeros appended. */
  function Resized(s: seq<nat>, n: nat): (r: seq<nat>)
    ensures |r| == n
    ensures n <= |s| ==> r == s[..n]
    ensures n > |s| ==> r[..|s|] == s && forall k :: |s| <= k < n ==> r[k] == 0
  {
    if n <= |s| then s[..n] else s + seq(n - |s|, _ => 0)
  }

  /**
   * Growing the particle count with the same block size keeps the blocks of
   * the particles there were and adds empty ones.
   */
  lemma {:induction false} GrowKeepsBlocks(ns: seq<nat>, size: nat, total: nat, total': nat)
    requires |ns| == Start(total, size + 1) && total <= total'
    ensures var v' := ViewOf(Resized(ns, Start(total', size + 1)), size, total');
      && v'[..total] == ViewOf(ns, size, total)
      && forall p :: total <= p < total' ==> v'[p] == Block(0, seq(size, _ => 0))
  {
    var stride := size + 1;
    if total < total' {
      StartLess(total, total', stride);
    }
    var ns' := Resized(ns, Start(total', stride));
    var v, v' := ViewOf(ns, size, total), ViewOf(ns', size, total');
    forall p | 0 <= p < total
      ensures v'[p] == v[p]
    {
      BlockInside(stride, total, p);
      var start := Start(p, stride);
      assert ns'[start + 1..start + stride] == ns[start + 1..start + stride];
    }
    forall p | total <= p < total'
      ensures v'[p] == Block(0, seq(size, _ => 0))
    {
      if total < p {
        StartLess(total, p, stride);
      }
      BlockInside(stride, total', p);
      var start := Start(p, stride);
      assert ns'[start + 1..start + stride] == seq(size, _ => 0);
    }
    assert v'[..total] == v;
  }

  /**
   * The particle count after the check at the start of FindNeighbors: a
   * smaller count is replaced by the collection size, truncated to
   * particleAmount_t. It never shrinks and covers the collection as long as
   * the collection size fits the type.
   */
  function FittedCount(total: nat, collectionSize: nat): (r: nat)
    requires total < CellStorage.Two16
    ensures r < CellStorage.Two16
    ensures collectionSize < CellStorage.Two16 ==> r >= total && r >= collectionSize
    ensures collectionSize < CellStorage.Two16 && collectionSize <= total ==> r == total
  {
    if total < collectionSize then collectionSize % CellStorage.Two16 else total
  }

  /** With 65536 particles the truncated count is 0: the storage loses every block. */
  lemma FitWrapsAround()
    ensures FittedCount(10, CellStorage.Two16) == 0
  {
  }

  class NeighborStorage {
    var neighborStorageSizePerParticle: nat
    var totalParticleCount: nat
    var neighbors: seq<nat>

    ghost predicate Valid()
      reads this
    {
      && neighborStorageSizePerParticle < CellStorage.Two16
      && totalParticleCount < CellStorage.Two16
      && |neighbors| == Start(totalParticleCount, neighborStorageSizePerParticle + 1)
    }

    /** The per-particle blocks. */
    ghost function View(): (v: seq<Block>)
      requires Valid()
      reads this
      ensures |v| == totalParticleCount
    {
      ViewOf(neighbors, neighborStorageSizePerParticle, totalParticleCount)
    }

    /** The constructor sizes the vector for the given block size and particle count. */
    constructor (neighborStorageSizePerParticle: nat, totalParticleCount: nat)
      requires neighborStorageSizePerParticle < CellStorage.Two16 && totalParticleCount < CellStorage.Two16
      ensures Valid()
      ensures this.neighborStorageSizePerParticle == neighborStorageSizePerParticle
      ensures this.totalParticleCount == totalParticleCount
      ensures forall p :: 0 <= p < totalParticleCount ==>
        View()[p] == Block(0, seq(neighborStorageSizePerParticle, _ => 0))
    {
      this.neighborStorageSizePerParticle := neighborStorageSizePerParticle;
      this.totalParticleCount := totalParticleCount;
      neighbors := [];
      new;
      GrowKeepsBlocks([], neighborStorageSizePerParticle, 0, totalParticleCount);
      ResizeVector();
    }

    /** ResizeVector: the vector resized to one block per particle. */
    method ResizeVector()
      requires neighborStorageSizePerParticle < CellStorage.Two16 && totalParticleCount < CellStorage.Two16
      modifies this
      ensures Valid()
      ensures neighborStorageSizePerParticle == old(neighborStorageSizePerParticle)
      ensures totalParticleCount == old(totalParticleCount)
      ensures neighbors == Resized(old(neighbors), (neighborStorageSizePerParticle + 1) * totalParticleCount)
    {
      StartIsProduct(totalParticleCount, neighborStorageSizePerParticle + 1);
      assert (neighborStorageSizePerParticle + 1) * totalParticleCount == totalParticleCount * (neighborStorageSizePerParticle + 1);
      neighbors := Resized(neighbors, (neighborStorageSizePerParticle + 1) * totalParticleCount);
    }

    /**
     * setTotalParticleCount: the vector is resized; with more particles the
     * blocks there were keep their contents and the new ones are empty.
     */
    method SetTotalParticleCount(total: nat)
      requires Valid() && total < CellStorage.Two16
      modifies this
      ensures Valid() && totalParticleCount == total
      ensures neighborStorageSizePerParticle == old(neighborStorageSizePerParticle)
      ensures total >= old(totalParticleCount) ==>
        && View()[..old(totalParticleCount)] == old(View())
        && forall p :: old(totalParticleCount) <= p < total ==>
             View()[p] == Block(0, seq(neighborStorageSizePerParticle, _ => 0))
    {
      if total >= totalParticleCount {
        GrowKeepsBlocks(neighbors, neighborStorageSizePerParticle, totalParticleCount, total);
      }
      totalParticleCount := total;
      ResizeVector();
    }

    /**
     * SetNeighborStorageSizePerParticle: the vector is resized to the new
     * block size; entries keep their positions in the flat vector, so the
     * old blocks are not carried over to the new layout.
     */
    method SetNeighborStorageSizePerParticle(size: nat)
      requires Valid() && size < CellStorage.Two16
      modifies this
      ensures Valid() && neighborStorageSizePerParticle == size
      ensures totalParticleCount == old(totalParticleCount)
      ensures neighbors == Resized(old(neighbors), (size + 1) * totalParticleCount)
    {
      neighborStorageSizePerParticle := size;
      ResizeVector();
    }

    /**
     * The check at the start of FindNeighbors: a storage smaller than the
     * collection is set to the collection size, truncated to
     * particleAmount_t. When the count does not drop, the blocks there were
     * keep their contents.
     */
    method FitToCollection(collectionSize: nat)
      requires Valid()
      modifies this
      ensures Valid()
      ensures totalParticleCount == FittedCount(old(totalParticleCount), collectionSize)
      ensures neighborStorageSizePerParticle == old(neighborStorageSizePerParticle)
      ensures totalParticleCount >= old(totalParticleCount) ==> View()[..old(totalParticleCount)] == old(View())
    {
      if totalParticleCount < collectionSize {
        SetTotalParticleCount(collectionSize % CellStorage.Two16);
      } else {
        assert View()[..totalParticleCount] == View();
      }
    }

    /** SetCount: particle p's neighbor count; no other entry changes. */
    method SetCount(p: nat, count: nat)
      requires Valid() && p < totalParticleCount && count < CellStorage.Two16
      modifies this
      ensures Valid()
      ensures neighborStorageSizePerParticle == old(neighborStorageSizePerParticle)
      ensures totalParticleCount == old(totalParticleCount)
      ensures View() == old(View())[p := old(View())[p].(count := count)]
    {
      ViewAfterWrite(neighbors, neighborStorageSizePerParticle, totalParticleCount, p, 0, count);
      StartIsProduct(p, neighborStorageSizePerParticle + 1);
      neighbors := neighbors[p * (neighborStorageSizePerParticle + 1) := count];
    }

    /** GetCount: particle p's neighbor count, the first entry of its block. */
    function GetCount(p: nat): (r: nat)
      requires Valid() && p < totalParticleCount
      reads this
      ensures r == View()[p].count
    {
      BlockInside(neighborStorageSizePerParticle + 1, totalParticleCount, p);
      StartIsProduct(p, neighborStorageSizePerParticle + 1);
      neighbors[p * (neighborStorageSizePerParticle + 1)]
    }

    /**
     * The write through the data pointer in FindNeighborsForCellForParticle:
     * a full block throws, otherwise the neighbor goes into slot `count` of
     * particle p's block and the count so far grows by one.
     */
    method AddNeighbor(p: nat, count: nat, neighbor: nat) returns (r: Result<nat>)
      requires Valid() && p < totalParticleCount
      modifies this
      ensures Valid()
      ensures neighborStorageSizePerParticle == old(neighborStorageSizePerParticle)
      ensures totalParticleCount == old(totalParticleCount)
      ensures r.Err? <==> count >= neighborStorageSizePerParticle
      ensures r.Err? ==> r.message == StorageExceeded && neighbors == old(neighbors)
      ensures r.Ok? ==> r.value == count + 1
      ensures r.Ok? ==> View() == old(View())[p := old(View())[p].(data := old(View())[p].data[count := neighbor])]
    {
      if count >= neighborStorageSizePerParticle {
        return Err(StorageExceeded);
      }
      ViewAfterWrite(neighbors, neighborStorageSizePerParticle, totalParticleCount, p, count + 1, neighbor);
      StartIsProduct(p, neighborStorageSizePerParticle + 1);
      neighbors := neighbors[p * (neighborStorageSizePerParticle + 1) + (count + 1) := neighbor];
      r := Ok(count + 1);
    }

    /**
     * The body of FindNeighbors' particle loop for particle p, given the
     * neighbors the distance tests accept in search order: each is stored
     * in the next slot, and the count is set at the end. More neighbors
     * than the block holds throw before the count is set; either way no
     * other particle's block changes.
     */
    method FindNeighborsOfParticle(p: nat, found: seq<nat>) returns (r: Result<()>)
      requires Valid() && p < totalParticleCount
      modifies this
      ensures Valid()
      ensures neighborStorageSizePerParticle == old(neighborStorageSizePerParticle)
      ensures totalParticleCount == old(totalParticleCount)
      ensures r.Ok? <==> |found| <= neighborStorageSizePerParticle
      ensures r.Err? ==> r.message == StorageExceeded
      ensures forall q :: 0 <= q < totalParticleCount && q != p ==> View()[q] == old(View())[q]
      ensures r.Ok? ==>
        View()[p] == Block(|found|, found + old(View())[p].data[|found|..])
      ensures r.Err? ==> View()[p].count == old(View())[p].count
      ensures r.Err? ==>
        View()[p] == Block(old(View())[p].count, found[..neighborStorageSizePerParticle])
    {
      var stored := AddNeighbors(p, found);
      if stored.Err? {
        return Err(stored.message);
      }
      SetCount(p, stored.value);
      r := Ok(());
    }

    /**
     * The loop of FindNeighborsOfParticle: each neighbor found goes into the
     * next slot of p's block, until the block is full; the count is not set.
     */
    method AddNeighbors(p: nat, found: seq<nat>) returns (r: Result<nat>)
      requires Valid() && p < totalParticleCount
      modifies this
      ensures Valid()
      ensures neighborStorageSizePerParticle == old(neighborStorageSizePerParticle)
      ensures totalParticleCount == old(totalParticleCount)
      ensures r.Ok? <==> |found| <= neighborStorageSizePerParticle
      ensures r.Ok? ==> r.value == |found|
      ensures r.Err? ==> r.message == StorageExceeded
      ensures forall q :: 0 <= q < totalParticleCount && q != p ==> View()[q] == old(View())[q]
      ensures var n := if r.Ok? then |found| else neighborStorageSizePerParticle;
        View()[p] == Block(old(View())[p].count, found[..n] + old(View())[p].data[n..])
    {
      ghost var before := View();
      var neighborCount := 0;
      while neighborCount < |found|
        invariant Valid() && neighborCount <= |found|
        invariant neighborStorageSizePerParticle == old(neighborStorageSizePerParticle)
        invariant totalParticleCount == old(totalParticleCount)
        invariant neighborCount <= neighborStorageSizePerParticle
        invariant forall q :: 0 <= q < totalParticleCount && q != p ==> View()[q] == before[q]
        invariant View()[p] ==
          Block(before[p].count, found[..neighborCount] + before[p].data[neighborCount..])
      {
        var added := AddNeighbor(p, neighborCount, found[neighborCount]);
        if added.Err? {
          return Err(added.message);
        }
        FillNext(before[p], found, neighborCount);
        neighborCount := added.value;
      }
      r := Ok(neighborCount);
    }

    /** GetNeighbors: the first `count` slots of particle p's block. */
    function GetNeighbors(p: nat): (r: seq<nat>)
      requires Valid() && p < totalParticleCount
      requires GetCount(p) <= neighborStorageSizePerParticle
      reads this
      ensures |r| == View()[p].count
      ensures forall k :: 0 <= k < |r| ==> r[k] == View()[p].data[k]
    {
      BlockInside(neighborStorageSizePerParticle + 1, totalParticleCount, p);
      StartIsProduct(p, neighborStorageSizePerParticle + 1);
      var start := p * (neighborStorageSizePerParticle + 1);
      neighbors[start + 1..start + 1 + GetCount(p)]
    }
  }

  /** Writing the next found neighbor into a block filled up to n fills it up to n + 1. */
  lemma FillNext(b: Block, found: seq<nat>, n: nat)
    requires n < |b.data| && n < |found|
    ensures (found[..n] + b.data[n..])[n := found[n]] == found[..n + 1] + b.data[n + 1..]
  {
    assert found[..n + 1] == found[..n] + [found[n]];
  }

  /**
   * What the search stores for a particle is what it reads back: after a
   * successful store the neighbors of p are exactly those found, in order.
   */
  method StoreThenRead(storage: NeighborStorage, p: nat, found: seq<nat>) returns (r: Result<seq<nat>>)
    requires storage.Valid() && p < storage.totalParticleCount
    modifies storage
    ensures r.Ok? <==> |found| <= storage.neighborStorageSizePerParticle
    ensures r.Ok? ==> r.value == found
  {
    var stored := storage.FindNeighborsOfParticle(p, found);
    if stored.Err? {
      return Err(stored.message);
    }
    var read := storage.GetNeighbors(p);
    assert read == found;
    r := Ok(read);
  }
}
