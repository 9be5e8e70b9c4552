/**
 * The ring buffer of the cached statistics collector
 * (src/core/CachedStatisticCollector.cpp). Every computed set of statistics
 * is written at the pointer; the pointer advances modulo the cache size and
 * the size grows until the buffer is full. The time column accumulates the
 * timesteps, so it holds the simulated time of each entry.
 *
 * The nine per-quantity vectors are kept as one array of `Sample` records;
 * the time vector is an array of its own because it is computed from the
 * previous entry.
 */
module StatisticsCache {

  /** The quantities StatisticCollector computes for one step. */
  datatype Sample = Sample(
    averageDensity: real,
    energy: real,
    maximumVelocity: real,
    deadParticleCount: real,
    kineticEnergy: real,
    potentialEnergy: real,
    boundaryParticleCount: real,
    normalParticleCount: real,
    cflNumber: real)

  const ZeroSample := Sample(0.0, 0.0, 0.0, 0.0, 0.0, 0.0, 0.0, 0.0, 0.0)

  /** The total of the timesteps. */
  function Sum(dts: seq<real>): real
  {
    if dts == [] then 0.0 else Sum(dts[..|dts| - 1]) + dts[|dts| - 1]
  }

  /** `x % m` for `x` below `2 * m`: the pointer arithmetic of the ring buffer. */
  lemma SmallMod(x: int, m: int)
    requires 0 <= x < 2 * m
    ensures x % m == if x < m then x else x - m
  {
  }

  /** The slot `k + 1` places behind pointer `p`, i.e. `(p - 1 - k) mod cacheSize`. */
  function BackSlot(p: nat, k: nat, cacheSize: nat): (s: nat)
    requires p < cacheSize && k < cacheSize
    ensures s < cacheSize
    ensures s == p <==> k == cacheSize - 1
  {
    if k < p then p - 1 - k else p - 1 - k + cacheSize
  }

  /**
   * Advancing the pointer by one moves every slot one place further back;
   * the slot right behind the pointer is the `wrapped` slot of
   * CreateNewCacheEntry.
   */
  lemma PointerAdvance(p: nat, cacheSize: nat)
    requires p < cacheSize
    ensures (p + 1) % cacheSize < cacheSize
    ensures BackSlot((p + 1) % cacheSize, 0, cacheSize) == p
    ensures BackSlot(p, 0, cacheSize) == (p + (cacheSize - 1)) % cacheSize
  {
    SmallMod(p + 1, cacheSize);
    SmallMod(p + (cacheSize - 1), cacheSize);
  }

  lemma BackSlotAdvance(p: nat, k: nat, cacheSize: nat)
    requires p < cacheSize && k + 1 < cacheSize
    ensures BackSlot((p + 1) % cacheSize, k + 1, cacheSize) == BackSlot(p, k, cacheSize)
  {
    SmallMod(p + 1, cacheSize);
  }

  /**
   * The ring-buffer layout: the newest `size` of the recorded entries sit
   * behind pointer `p`, newest first; a time slot holds the sum of the
   * timesteps up to its entry.
   */
  ghost predicate Layout(times: seq<real>, slots: seq<Sample>, p: nat, size: nat,
                         timesteps: seq<real>, samples: seq<Sample>)
  {
    && |times| == |slots| > 0
    && |samples| == |timesteps|
    && p < |times|
    && size == (if |timesteps| < |times| then |timesteps| else |times|)
    && (forall k :: 0 <= k < size ==>
          var slot := BackSlot(p, k, |times|);
          times[slot] == Sum(timesteps[..|timesteps| - k]) &&
          slots[slot] == samples[|samples| - 1 - k])
  }

  /** Writing entry `n` at the pointer and advancing keeps the layout. */
  lemma {:induction false} LayoutAfterWrite(times: seq<real>, slots: seq<Sample>, p: nat, size: nat,
                                            timesteps: seq<real>, samples: seq<Sample>,
                                            timestep: real, sample: Sample,
                                            times': seq<real>, slots': seq<Sample>, q: nat, size': nat,
                                            timesteps': seq<real>, samples': seq<Sample>)
    requires Layout(times, slots, p, size, timesteps, samples)
    requires times' == times[p := if size == 0 then timestep else times[BackSlot(p, 0, |times|)] + timestep]
    requires slots' == slots[p := sample] && q == (p + 1) % |times|
    requires size' == (if size < |times| then size + 1 else |times|)
    requires timesteps' == timesteps + [timestep] && samples' == samples + [sample]
    ensures Layout(times', slots', q, size', timesteps', samples')
  {
    var c := |times|;
    var n := |timesteps|;
    PointerAdvance(p, c);
    assert timesteps'[..n + 1] == timesteps';
    if n > 0 {
      assert timesteps[..n] == timesteps;
      assert timesteps'[..n] == timesteps;
    }
    forall k | 0 <= k < size'
      ensures times'[BackSlot(q, k, c)] == Sum(timesteps'[..|timesteps'| - k])
      ensures slots'[BackSlot(q, k, c)] == samples'[|samples'| - 1 - k]
    {
      if k > 0 {
        BackSlotAdvance(p, k - 1, c);
        assert timesteps'[..|timesteps'| - k] == timesteps[..n - (k - 1)];
      }
    }
  }

  class CachedStatisticCollector {
    const cacheSize: nat
    var timestepCache: array<real>
    var sampleCache: array<Sample>
    var currentCacheDataSize: nat
    var currentCacheDataPointer: nat

    /** The timesteps and samples recorded since the last reset, oldest first. */
    ghost var timesteps: seq<real>
    ghost var samples: seq<Sample>

    ghost predicate Valid()
      reads this, timestepCache, sampleCache
    {
      && timestepCache.Length == cacheSize
      && Layout(timestepCache[..], sampleCache[..], currentCacheDataPointer, currentCacheDataSize,
                timesteps, samples)
    }

    /** The constructor sizes every vector to the cache size (ResizeVectors). */
    constructor (size: nat)
      requires size > 0
      ensures Valid()
      ensures cacheSize == size && timesteps == [] && samples == []
      ensures fresh(timestepCache) && fresh(sampleCache)
      ensures timestepCache[..] == seq(size, _ => 0.0)
      ensures sampleCache[..] == seq(size, _ => ZeroSample)
    {
      cacheSize := size;
      timestepCache := new real[size](_ => 0.0);
      sampleCache := new Sample[size](_ => ZeroSample);
      currentCacheDataSize := 0;
      currentCacheDataPointer := 0;
      timesteps := [];
      samples := [];
    }

    /** ResetCache forgets every entry; the vectors keep their stale values. */
    method ResetCache()
      requires Valid()
      modifies this
      ensures Valid()
      ensures currentCacheDataSize == 0 && currentCacheDataPointer == 0
      ensures timesteps == [] && samples == []
      ensures timestepCache == old(timestepCache) && sampleCache == old(sampleCache)
    {
      currentCacheDataSize := 0;
      currentCacheDataPointer := 0;
      timesteps := [];
      samples := [];
    }

    /**
     * CreateNewCacheEntry with the collector's freshly calculated values:
     * the time entry is the previous entry's time plus `timestep` (just
     * `timestep` on an empty cache), the sample goes to the same slot.
     */
    method CreateNewCacheEntry(timestep: real, sample: Sample)
      requires Valid()
      modifies this, timestepCache, sampleCache
      ensures Valid()
      ensures timesteps == old(timesteps) + [timestep] && samples == old(samples) + [sample]
      ensures timestepCache == old(timestepCache) && sampleCache == old(sampleCache)
      ensures timestepCache[..] == old(timestepCache[..])[old(currentCacheDataPointer) :=
        if old(currentCacheDataSize) == 0 then timestep
        else old(timestepCache[(currentCacheDataPointer + (cacheSize - 1)) % cacheSize]) + timestep]
      ensures sampleCache[..] == old(sampleCache[..])[old(currentCacheDataPointer) := sample]
      ensures currentCacheDataPointer == (old(currentCacheDataPointer) + 1) % cacheSize
      ensures currentCacheDataSize ==
        (if old(currentCacheDataSize) < cacheSize then old(currentCacheDataSize) + 1 else cacheSize)
    {
      ghost var times, slots, p, size := timestepCache[..], sampleCache[..], currentCacheDataPointer, currentCacheDataSize;
      ghost var timesteps0, samples0 := timesteps, samples;
      PointerAdvance(p, cacheSize);
      var t;
      if currentCacheDataSize == 0 {
        t := timestep;
      } else {
        var wrapped := (currentCacheDataPointer + (cacheSize - 1)) % cacheSize;
        t := timestepCache[wrapped] + timestep;
      }
      timestepCache[currentCacheDataPointer] := t;
      sampleCache[currentCacheDataPointer] := sample;
      assert timestepCache[..] == times[p := t];
      assert sampleCache[..] == slots[p := sample];

      if currentCacheDataSize < cacheSize {
        currentCacheDataSize := currentCacheDataSize + 1;
      }
      currentCacheDataPointer := (currentCacheDataPointer + 1) % cacheSize;
      timesteps := timesteps + [timestep];
      samples := samples + [sample];
      LayoutAfterWrite(times, slots, p, size, timesteps0, samples0, timestep, sample,
                       timestepCache[..], sampleCache[..], currentCacheDataPointer, currentCacheDataSize,
                       timesteps, samples);
    }

    /** getCurrentCacheDataSize */
    function CurrentCacheDataSize(): (r: nat)
      requires Valid()
      reads this, timestepCache, sampleCache
      ensures r <= cacheSize && r <= |timesteps|
      ensures r == cacheSize || r == |timesteps|
    {
      currentCacheDataSize
    }
  }
}
