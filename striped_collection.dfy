/**
 * The striped particle collection
 * (src/core/fluidSolver/particleCollection/StripedParticleCollection.cpp):
 * one vector per particle field, a sort key per slot, and two maps between
 * a particle's id (the index it was created at) and its current index,
 * which sorting changes by swapping slots.
 *
 * The eleven per-field vectors are kept as one vector of `FluidParticle`
 * records: every operation touches all of them at the same index, so
 * swapping or appending a record is the same as doing it field by field.
 */
module StripedCollection {
  import Swaps

  datatype Vec2 = Vec2(x: real, y: real)

  /** The per-particle fields, with the particle type as its uint8 value. */
  datatype FluidParticle = FluidParticle(
    position: Vec2,
    velocity: Vec2,
    acceleration: Vec2,
    mass: real,
    pressure: real,
    density: real,
    particleType: bv8,
    predictedVelocity: Vec2,
    nonPressureAcceleration: Vec2,
    sourceTerm: real,
    diagonalElement: real)

  /** The entry AddEntryToEachArray appends to each field vector. */
  const BlankParticle := FluidParticle(Vec2(0.0, 0.0), Vec2(0.0, 0.0), Vec2(0.0, 0.0), 0.0, 0.0, 0.0, 0,
                                       Vec2(0.0, 0.0), Vec2(0.0, 0.0), 0.0, 0.0)

  /**
   * The first `size` entries of the two maps are inverse permutations of
   * 0 .. size-1: the particle at index k has an id that maps back to k,
   * and the index an id maps to holds that id.
   */
  ghost predicate Inverse(idToIndex: seq<nat>, indexToId: seq<nat>, size: nat) {
    && size <= |idToIndex| && size <= |indexToId|
    && (forall k :: 0 <= k < size ==> indexToId[k] < size && idToIndex[indexToId[k]] == k)
    && (forall id :: 0 <= id < size ==> idToIndex[id] < size && indexToId[idToIndex[id]] == id)
  }

  /**
   * The id map after the particles at indices i and j trade places: the
   * particle that was at i is now found at j, and the other way round.
   */
  function MovedIds(idToIndex: seq<nat>, indexToId: seq<nat>, size: nat, i: nat, j: nat): (r: seq<nat>)
    requires Inverse(idToIndex, indexToId, size) && i < size && j < size
    ensures |r| == |idToIndex|
    ensures r[indexToId[i]] == j && r[indexToId[j]] == i
    ensures forall id :: 0 <= id < |r| && id != indexToId[i] && id != indexToId[j] ==> r[id] == idToIndex[id]
  {
    idToIndex[indexToId[i] := j][indexToId[j] := i]
  }

  /** Swapping two slots and moving their ids keeps the maps inverse. */
  lemma SwapKeepsInverse(idToIndex: seq<nat>, indexToId: seq<nat>, size: nat, i: nat, j: nat)
    requires Inverse(idToIndex, indexToId, size) && i < size && j < size
    ensures Inverse(MovedIds(idToIndex, indexToId, size, i, j), Swaps.Swap(indexToId, i, j), size)
  {
    var ids := MovedIds(idToIndex, indexToId, size, i, j);
    var idx := Swaps.Swap(indexToId, i, j);
    forall id | 0 <= id < size ensures ids[id] < size && idx[ids[id]] == id {
      if id != indexToId[i] && id != indexToId[j] {
        var m := idToIndex[id];
        assert m != i && m != j;
      }
    }
  }

  /**
   * Appending a slot whose id and index are both the new index keeps the
   * maps inverse.
   */
  lemma AppendKeepsInverse(idToIndex: seq<nat>, indexToId: seq<nat>, size: nat)
    requires Inverse(idToIndex, indexToId, size) && |idToIndex| == |indexToId| == size
    ensures Inverse(idToIndex + [size], indexToId + [size], size + 1)
  {
    var ids, idx := idToIndex + [size], indexToId + [size];
    forall k | 0 <= k < size + 1 ensures idx[k] < size + 1 && ids[idx[k]] == k {
      if k < size {
        assert idx[k] == indexToId[k];
      }
    }
    forall id | 0 <= id < size + 1 ensures ids[id] < size + 1 && idx[ids[id]] == id {
      if id < size {
        assert ids[id] == idToIndex[id];
      }
    }
  }

  /**
   * SwapElements as written swaps the id map at positions i and j, as if
   * the ids were indices. Starting from three fresh particles, swap(0, 1)
   * happens to keep the maps inverse, but a following swap(1, 2) does not:
   * the particle with id 1 is at index 0 while the id map sends it to 2.
   */
  lemma AsWrittenSwapBreaksInverse()
    ensures Inverse([0, 1, 2], [0, 1, 2], 3)
    ensures Swaps.Swap([0, 1, 2], 0, 1) == [1, 0, 2]
    ensures Inverse([1, 0, 2], [1, 0, 2], 3)
    ensures Swaps.Swap([1, 0, 2], 1, 2) == [1, 2, 0]
    ensures !Inverse([1, 2, 0], [1, 2, 0], 3)
  {
    var s: seq<nat> := [1, 2, 0];
    assert s[s[0]] != 0;
  }

  class StripedParticleCollection {
    var size: nat
    var idToIndex: seq<nat>
    var indexToId: seq<nat>
    var sortKeys: seq<nat>
    var particles: seq<FluidParticle>
    var indicesChangedCounter: nat

    ghost predicate Valid()
      reads this
    {
      && |idToIndex| == |indexToId| == |sortKeys| == |particles| == size
      && Inverse(idToIndex, indexToId, size)
    }

    constructor ()
      ensures Valid()
      ensures size == 0 && particles == [] && indicesChangedCounter == 0
    {
      size := 0;
      idToIndex := [];
      indexToId := [];
      sortKeys := [];
      particles := [];
      indicesChangedCounter := 0;
    }

    /** AddEntryToEachArray: every vector gets one zero entry. */
    method AddEntryToEachArray()
      modifies this
      ensures idToIndex == old(idToIndex) + [0] && indexToId == old(indexToId) + [0]
      ensures sortKeys == old(sortKeys) + [0] && particles == old(particles) + [BlankParticle]
      ensures size == old(size) && indicesChangedCounter == old(indicesChangedCounter)
    {
      idToIndex := idToIndex + [0];
      indexToId := indexToId + [0];
      sortKeys := sortKeys + [0];
      particles := particles + [BlankParticle];
    }

    /**
     * AddEmptyParticle: the new particle gets the old size as index and as
     * id; the vectors grow while they are too short for it.
     */
    method AddEmptyParticle() returns (index: nat)
      requires Valid()
      modifies this
      ensures Valid()
      ensures index == old(size) && size == old(size) + 1
      ensures idToIndex == old(idToIndex) + [index] && indexToId == old(indexToId) + [index]
      ensures sortKeys == old(sortKeys) + [0] && particles == old(particles) + [BlankParticle]
      ensures indicesChangedCounter == old(indicesChangedCounter)
    {
      index := size;
      size := size + 1;
      while |idToIndex| <= index
        invariant |idToIndex| == |indexToId| == |sortKeys| == |particles|
        invariant size == index + 1 && index <= |idToIndex| <= index + 1
        invariant |idToIndex| == index ==>
          && idToIndex == old(idToIndex) && indexToId == old(indexToId)
          && sortKeys == old(sortKeys) && particles == old(particles)
          && indicesChangedCounter == old(indicesChangedCounter)
        invariant |idToIndex| == index + 1 ==>
          && idToIndex == old(idToIndex) + [0] && indexToId == old(indexToId) + [0]
          && sortKeys == old(sortKeys) + [0] && particles == old(particles) + [BlankParticle]
          && indicesChangedCounter == old(indicesChangedCounter)
        decreases index + 1 - |idToIndex|
      {
        AddEntryToEachArray();
      }
      AppendKeepsInverse(old(idToIndex), old(indexToId), index);
      idToIndex := idToIndex[index := index];
      indexToId := indexToId[index := index];
      assert idToIndex == old(idToIndex) + [index];
      assert indexToId == old(indexToId) + [index];
    }

    /** AddParticle: a new slot holding every field of `p`. */
    method AddParticle(p: FluidParticle) returns (index: nat)
      requires Valid()
      modifies this
      ensures Valid()
      ensures index == old(size) && size == old(size) + 1
      ensures particles == old(particles) + [p]
      ensures idToIndex == old(idToIndex) + [index] && indexToId == old(indexToId) + [index]
      ensures sortKeys == old(sortKeys) + [0]
      ensures indicesChangedCounter == old(indicesChangedCounter)
    {
      index := AddEmptyParticle();
      particles := particles[index := p];
    }

    /**
     * SwapElements as the source writes it: the id map is swapped at
     * positions i and j like every other vector.
     */
    method SwapElementsAsWritten(i: nat, j: nat)
      requires Valid() && i < size && j < size
      modifies this
      ensures size == old(size)
      ensures idToIndex == Swaps.Swap(old(idToIndex), i, j)
      ensures indexToId == Swaps.Swap(old(indexToId), i, j)
      ensures sortKeys == Swaps.Swap(old(sortKeys), i, j)
      ensures particles == Swaps.Swap(old(particles), i, j)
      ensures indicesChangedCounter == old(indicesChangedCounter) + 1
    {
      idToIndex := Swaps.Swap(idToIndex, i, j);
      sortKeys := Swaps.Swap(sortKeys, i, j);
      indexToId := Swaps.Swap(indexToId, i, j);
      particles := Swaps.Swap(particles, i, j);
      indicesChangedCounter := indicesChangedCounter + 1;
    }

    /**
     * SwapElements: the particles at i and j trade places in every vector,
     * and the id map follows the two particles to their new indices.
     */
    method SwapElements(i: nat, j: nat)
      requires Valid() && i < size && j < size
      modifies this
      ensures Valid()
      ensures size == old(size)
      ensures idToIndex == MovedIds(old(idToIndex), old(indexToId), size, i, j)
      ensures indexToId == Swaps.Swap(old(indexToId), i, j)
      ensures sortKeys == Swaps.Swap(old(sortKeys), i, j)
      ensures particles == Swaps.Swap(old(particles), i, j)
      ensures indicesChangedCounter == old(indicesChangedCounter) + 1
    {
      SwapKeepsInverse(idToIndex, indexToId, size, i, j);
      idToIndex := MovedIds(idToIndex, indexToId, size, i, j);
      sortKeys := Swaps.Swap(sortKeys, i, j);
      indexToId := Swaps.Swap(indexToId, i, j);
      particles := Swaps.Swap(particles, i, j);
      indicesChangedCounter := indicesChangedCounter + 1;
    }

    /** PrecalculateSortKeys: slot i gets `key(i)`. */
    method PrecalculateSortKeys(key: nat -> nat)
      requires Valid()
      modifies this
      ensures Valid()
      ensures |sortKeys| == size && forall k :: 0 <= k < size ==> sortKeys[k] == key(k)
      ensures size == old(size) && particles == old(particles)
      ensures idToIndex == old(idToIndex) && indexToId == old(indexToId)
      ensures indicesChangedCounter == old(indicesChangedCounter)
    {
      var i := 0;
      while i < size
        invariant 0 <= i <= size
        invariant |sortKeys| == size
        invariant forall k :: 0 <= k < i ==> sortKeys[k] == key(k)
        invariant unchanged(this`size, this`particles, this`idToIndex, this`indexToId, this`indicesChangedCounter)
      {
        sortKeys := sortKeys[i := key(i)];
        i := i + 1;
      }
    }

    /** GetParticleID: the id of the particle at `index`, which maps back to it. */
    function GetParticleId(index: nat): (id: nat)
      requires Valid() && index < size
      reads this
      ensures id < size && idToIndex[id] == index
    {
      indexToId[index]
    }

    /** GetIndex: where the particle with id `id` is now, which holds that id. */
    function GetIndex(id: nat): (index: nat)
      requires Valid() && id < size
      reads this
      ensures index < size && indexToId[index] == id
    {
      idToIndex[id]
    }

    /** The fields of the particle at `index` (the individual getters). */
    function Get(index: nat): (p: FluidParticle)
      requires Valid() && index < size
      reads this
      ensures p == particles[index]
    {
      particles[index]
    }

    /** Clear: size 0 and every vector emptied. */
    method Clear()
      modifies this
      ensures Valid()
      ensures size == 0 && particles == [] && sortKeys == [] && idToIndex == [] && indexToId == []
      ensures indicesChangedCounter == old(indicesChangedCounter)
    {
      size := 0;
      idToIndex := [];
      indexToId := [];
      sortKeys := [];
      particles := [];
    }
  }

  /**
   * A particle added to the collection keeps its id through any swap: its
   * index moves with it, and its fields are found at that index.
   */
  lemma SwapFollowsParticle(idToIndex: seq<nat>, indexToId: seq<nat>, particles: seq<FluidParticle>,
                            size: nat, i: nat, j: nat, id: nat)
    requires Inverse(idToIndex, indexToId, size) && |particles| == size
    requires i < size && j < size && id < size
    ensures var ids := MovedIds(idToIndex, indexToId, size, i, j);
      ids[id] < size && Swaps.Swap(particles, i, j)[ids[id]] == particles[idToIndex[id]]
  {
    var ids := MovedIds(idToIndex, indexToId, size, i, j);
    SwapKeepsInverse(idToIndex, indexToId, size, i, j);
    if id != indexToId[i] && id != indexToId[j] {
      var m := idToIndex[id];
      assert m != i && m != j;
    }
  }
}
