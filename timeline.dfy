/**
 * The timeline of saved simulation states in the studio
 * (src/fluidStudio/TimelineService.cpp): a list of cached snapshot files and
 * a cursor into it. Saving while stepped back drops the "future" entries;
 * overriding replaces the current entry.
 *
 * The cache folder is modelled as a map from file path to the particle
 * collection serialized into that file, so writing a file stores a value
 * and reading it returns the stored value. The simulator the service reads
 * from and loads into is replaced by parameters and results.
 */
module Timeline {
  import opened Wrappers
  import Numerals

  /** The simulator time point stored with each snapshot. */
  datatype Timepoint = Timepoint(timestepNumber: nat, simulationTime: real, currentTimeStep: real)

  datatype CachedFile = CachedFile(timepoint: Timepoint, path: string)

  /** `<cache folder>/<timestep number>.data` */
  function CachePath(cacheFolder: string, timestepNumber: nat): (p: string)
    ensures |p| > |cacheFolder| + 5 && p[..|cacheFolder|] == cacheFolder
    ensures p[|p| - 5..] == ".data"
  {
    cacheFolder + "/" + Numerals.NatToString(timestepNumber) + ".data"
  }

  /** Different timesteps are cached in different files. */
  lemma {:induction false} CachePathInjective(cacheFolder: string, a: nat, b: nat)
    requires CachePath(cacheFolder, a) == CachePath(cacheFolder, b)
    ensures a == b
  {
    var pa, pb := CachePath(cacheFolder, a), CachePath(cacheFolder, b);
    var sa, sb := Numerals.NatToString(a), Numerals.NatToString(b);
    assert pa[|cacheFolder| + 1..|pa| - 5] == sa;
    assert pb[|cacheFolder| + 1..|pb| - 5] == sb;
    Numerals.NatToStringInjective(a, b);
  }

  /** A cursor is valid when it points into a non-empty list, or is 0 on an empty one. */
  predicate CursorValid<E>(cached: seq<E>, current: nat) {
    if |cached| == 0 then current == 0 else current < |cached|
  }

  /**
   * The list and cursor after save_timestep_result: everything after the
   * cursor is dropped, the new entry is appended, and the cursor moves to
   * it.
   */
  function AfterSave<E>(cached: seq<E>, current: nat, entry: E): (r: (seq<E>, nat))
    requires CursorValid(cached, current)
    ensures CursorValid(r.0, r.1)
    ensures r.1 == |r.0| - 1 && r.0[r.1] == entry
    ensures r.0[..r.1] == (if |cached| == 0 then [] else cached[..current + 1])
  {
    if |cached| > 0 then (cached[..current + 1] + [entry], current + 1) else ([entry], 0)
  }

  /**
   * The list and cursor after override_timestep_result: everything after
   * the cursor is dropped and the current entry is replaced; the cursor
   * stays, which makes it the last entry.
   */
  function AfterOverride<E>(cached: seq<E>, current: nat, entry: E): (r: (seq<E>, nat))
    requires CursorValid(cached, current)
    ensures CursorValid(r.0, r.1)
    ensures r.1 == |r.0| - 1 && r.0[r.1] == entry
    ensures |cached| > 0 ==> r.1 == current
    ensures r.0[..r.1] == (if |cached| == 0 then [] else cached[..current])
  {
    if |cached| > 0 then (cached[..current + 1][current := entry], current) else ([entry], 0)
  }

  /**
   * Saving twice without stepping back appends twice, and overriding right
   * after a save only replaces what that save appended.
   */
  lemma SaveThenOverride<E>(cached: seq<E>, current: nat, first: E, second: E)
    requires CursorValid(cached, current)
    ensures var (c1, i1) := AfterSave(cached, current, first);
      AfterOverride(c1, i1, second) == AfterSave(cached, current, second)
  {
    var (c1, i1) := AfterSave(cached, current, first);
    assert c1[..i1 + 1] == c1;
    if |cached| > 0 {
      assert c1[i1 := second] == cached[..current + 1] + [second];
    } else {
      assert c1[i1 := second] == [second];
    }
  }

  /** Every entry is the file cached for its own timestep, and that file exists. */
  ghost predicate EntriesStored<S>(cacheFolder: string, cached: seq<CachedFile>, files: map<string, S>) {
    forall k :: 0 <= k < |cached| ==>
      cached[k].path == CachePath(cacheFolder, cached[k].timepoint.timestepNumber) && cached[k].path in files
  }

  /** Writing a file keeps the entries stored. */
  lemma StoredAfterWrite<S>(cacheFolder: string, cached: seq<CachedFile>, files: map<string, S>, path: string, collection: S)
    requires EntriesStored(cacheFolder, cached, files)
    ensures EntriesStored(cacheFolder, cached, files[path := collection])
  {
    var f := files[path := collection];
    assert forall k :: 0 <= k < |cached| ==> cached[k].path in f;
  }

  /** Appending the entry of a stored file keeps the entries stored. */
  lemma StoredAppend<S>(cacheFolder: string, cached: seq<CachedFile>, files: map<string, S>, c: CachedFile)
    requires EntriesStored(cacheFolder, cached, files)
    requires c.path == CachePath(cacheFolder, c.timepoint.timestepNumber) && c.path in files
    ensures EntriesStored(cacheFolder, cached + [c], files)
  {
  }

  /** Dropping entries from the end, or replacing one by a stored entry, keeps the entries stored. */
  lemma StoredPrefix<S>(cacheFolder: string, cached: seq<CachedFile>, files: map<string, S>, n: nat, i: nat, c: CachedFile)
    requires EntriesStored(cacheFolder, cached, files) && n <= |cached| && i < n
    requires c.path == CachePath(cacheFolder, c.timepoint.timestepNumber) && c.path in files
    ensures EntriesStored(cacheFolder, cached[..n], files)
    ensures EntriesStored(cacheFolder, cached[..n][i := c], files)
  {
  }

  class TimelineService<S> {
    const cacheFolder: string
    var cached: seq<CachedFile>
    var currentIndex: nat
    /** The `.data` files in the cache folder and the collection each holds. */
    var files: map<string, S>

    ghost predicate Valid()
      reads this
    {
      && CursorValid(cached, currentIndex)
      && EntriesStored(cacheFolder, cached, files)
    }

    constructor (folder: string)
      ensures Valid()
      ensures cacheFolder == folder && cached == [] && currentIndex == 0 && files == map[]
    {
      cacheFolder := folder;
      cached := [];
      currentIndex := 0;
      files := map[];
    }

    /** reset: the cache folder's snapshot files are deleted and the list is emptied. */
    method Reset()
      modifies this
      ensures Valid()
      ensures cached == [] && currentIndex == 0 && files == map[]
    {
      files := map[];
      cached := [];
      currentIndex := 0;
    }

    /** CachedFile::create_file for the simulator's current state. */
    method CreateFile(timepoint: Timepoint, collection: S) returns (c: CachedFile)
      modifies this
      ensures c == CachedFile(timepoint, CachePath(cacheFolder, timepoint.timestepNumber))
      ensures files == old(files)[c.path := collection]
      ensures cached == old(cached) && currentIndex == old(currentIndex)
    {
      c := CachedFile(timepoint, CachePath(cacheFolder, timepoint.timestepNumber));
      files := files[c.path := collection];
    }

    /** save_timestep_result */
    method SaveTimestepResult(timepoint: Timepoint, collection: S)
      requires Valid()
      modifies this
      ensures Valid()
      ensures (cached, currentIndex) == AfterSave(old(cached), old(currentIndex),
        CachedFile(timepoint, CachePath(cacheFolder, timepoint.timestepNumber)))
      ensures files == old(files)[CachePath(cacheFolder, timepoint.timestepNumber) := collection]
    {
      StoredAfterWrite(cacheFolder, cached, files, CachePath(cacheFolder, timepoint.timestepNumber), collection);
      var c := CreateFile(timepoint, collection);
      ghost var after := AfterSave(cached, currentIndex, c);
      if |cached| > 0 {
        assert after == (cached[..currentIndex + 1] + [c], currentIndex + 1);
        StoredPrefix(cacheFolder, cached, files, currentIndex + 1, currentIndex, c);
        if currentIndex != |cached| - 1 {
          cached := cached[..currentIndex + 1];
        } else {
          assert cached[..currentIndex + 1] == cached;
        }
        currentIndex := currentIndex + 1;
      } else {
        assert after == ([c], 0);
        currentIndex := 0;
      }
      StoredAppend(cacheFolder, cached, files, c);
      cached := cached + [c];
      assert after.0 == cached;
      assert after.1 == currentIndex;
    }

    /** override_timestep_result */
    method OverrideTimestepResult(timepoint: Timepoint, collection: S)
      requires Valid()
      modifies this
      ensures Valid()
      ensures (cached, currentIndex) == AfterOverride(old(cached), old(currentIndex),
        CachedFile(timepoint, CachePath(cacheFolder, timepoint.timestepNumber)))
      ensures files == old(files)[CachePath(cacheFolder, timepoint.timestepNumber) := collection]
    {
      StoredAfterWrite(cacheFolder, cached, files, CachePath(cacheFolder, timepoint.timestepNumber), collection);
      var c := CreateFile(timepoint, collection);
      if |cached| > 0 {
        StoredPrefix(cacheFolder, cached, files, currentIndex + 1, currentIndex, c);
        if currentIndex != |cached| - 1 {
          cached := cached[..currentIndex + 1];
        } else {
          assert cached[..currentIndex + 1] == cached;
        }
        cached := cached[currentIndex := c];
      } else {
        StoredAppend(cacheFolder, cached, files, c);
        currentIndex := 0;
        cached := cached + [c];
        assert cached == [c];
      }
    }

    /**
     * step_to: an index past the end is ignored; otherwise the cursor moves
     * there and the snapshot's collection and time point are loaded into
     * the simulator, which here means returned.
     */
    method StepTo(index: nat) returns (loaded: Option<(Timepoint, S)>)
      requires Valid()
      modifies this
      ensures Valid()
      ensures cached == old(cached) && files == old(files)
      ensures index >= |cached| ==> loaded == None && currentIndex == old(currentIndex)
      ensures index < |cached| ==>
        currentIndex == index &&
        loaded == Some((cached[index].timepoint, files[cached[index].path]))
    {
      if index >= |cached| {
        return None;
      }
      currentIndex := index;
      var c := cached[index];
      loaded := Some((c.timepoint, files[c.path]));
    }

    /** size */
    function Size(): (r: nat)
      reads this
      ensures r == |cached|
    {
      |cached|
    }

    /** current */
    function Current(): (r: nat)
      requires Valid()
      reads this
      ensures r == currentIndex
      ensures cached != [] ==> r < |cached|
    {
      currentIndex
    }
  }
}
