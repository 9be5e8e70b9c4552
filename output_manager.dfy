/**
 * The parts of the output manager (src/libFluid/OutputManager.cpp) that do
 * not touch the file system: the file-name sanitizer, the counter that
 * decides when sensor data is saved, and the guard that refuses a file path
 * to a sensor that may not save.
 */
module OutputManager {
  import opened Wrappers

  /** The characters the sanitizer replaces: backslash, slash, colon, question mark, quote, angle brackets, bar. */
  const InvalidChars: set<char> := {'\\', '/', ':', '?', '"', '<', '>', '|'}

  /** remove_invalid_chars_from_filename: every invalid character becomes a space. */
  function RemoveInvalidChars(filename: string): (r: string)
    ensures |r| == |filename|
    ensures forall k :: 0 <= k < |r| ==>
      r[k] == (if filename[k] in InvalidChars then ' ' else filename[k])
  {
    if filename == [] then []
    else [if filename[0] in InvalidChars then ' ' else filename[0]] + RemoveInvalidChars(filename[1..])
  }

  /** The sanitized name holds no invalid character, so sanitizing again changes nothing. */
  lemma SanitizedIsClean(filename: string)
    ensures forall k :: 0 <= k < |RemoveInvalidChars(filename)| ==> RemoveInvalidChars(filename)[k] !in InvalidChars
    ensures RemoveInvalidChars(RemoveInvalidChars(filename)) == RemoveInvalidChars(filename)
  {
  }

  /** The per-sensor settings the manager reads. */
  datatype SensorParameters = SensorParameters(name: string, saveToFile: bool)

  /** A path as its list of components, joined by the platform separator elsewhere. */
  type Path = seq<string>

  /**
   * get_filepath_for_sensor without the directory creation: none when the
   * sensor may not save, otherwise output folder / sanitized sensor name /
   * desired file name.
   */
  function FilepathForSensor(outputFolder: Path, sensor: SensorParameters, desiredFilename: string): (r: Option<Path>)
    ensures r.None? <==> !sensor.saveToFile
    ensures r.Some? ==> r.value == outputFolder + [RemoveInvalidChars(sensor.name), desiredFilename]
  {
    if !sensor.saveToFile then None
    else Some(outputFolder + [RemoveInvalidChars(sensor.name), desiredFilename])
  }

  /**
   * The save cadence: `timestepsSinceLastSave` against the threshold
   * `parameters.timesteps_between_sensor_save`; `saves` counts the calls of
   * save_sensor_data, whose file output is not modelled.
   */
  class Manager {
    var timestepsSinceLastSave: nat
    var saves: nat
    const timestepsBetweenSave: nat

    constructor (threshold: nat)
      ensures timestepsBetweenSave == threshold
      ensures timestepsSinceLastSave == 0 && saves == 0
    {
      timestepsBetweenSave := threshold;
      timestepsSinceLastSave := 0;
      saves := 0;
    }

    /** save_sensor_data: the counter restarts at zero. */
    method SaveSensorData()
      modifies this
      ensures timestepsSinceLastSave == 0
      ensures saves == old(saves) + 1
    {
      timestepsSinceLastSave := 0;
      saves := saves + 1;
    }

    /** manual_save saves unconditionally. */
    method ManualSave()
      modifies this
      ensures timestepsSinceLastSave == 0
      ensures saves == old(saves) + 1
    {
      SaveSensorData();
    }

    /** timestep_happened: save when the counter has reached the threshold, then count this step. */
    method TimestepHappened()
      modifies this
      ensures (timestepsSinceLastSave, saves) ==
        Tick(old(timestepsSinceLastSave), old(saves), timestepsBetweenSave)
    {
      if timestepsSinceLastSave >= timestepsBetweenSave {
        SaveSensorData();
      }
      timestepsSinceLastSave := timestepsSinceLastSave + 1;
    }
  }

  /** One timestep on (counter, saves) with the given threshold. */
  function Tick(counter: nat, saves: nat, threshold: nat): (nat, nat)
  {
    if counter >= threshold then (1, saves + 1) else (counter + 1, saves)
  }

  /** `n` timesteps from the given counter. */
  function Ticks(counter: nat, saves: nat, threshold: nat, n: nat): (nat, nat)
    decreases n
  {
    if n == 0 then (counter, saves)
    else
      var (c, s) := Tick(counter, saves, threshold);
      Ticks(c, s, threshold, n - 1)
  }

  /**
   * The cadence: right after a save the counter is 1, and from there the
   * next save happens exactly `threshold` timesteps later; in between no
   * save happens.
   */
  lemma {:induction false} SaveEveryThreshold(counter: nat, saves: nat, threshold: nat)
    requires 1 <= counter <= threshold
    decreases threshold - counter
    ensures Ticks(counter, saves, threshold, threshold - counter) == (threshold, saves)
    ensures Ticks(counter, saves, threshold, threshold - counter + 1) == (1, saves + 1)
  {
    if counter < threshold {
      SaveEveryThreshold(counter + 1, saves, threshold);
      TicksSplit(counter, saves, threshold, threshold - counter);
    }
  }

  lemma {:induction false} TicksSplit(counter: nat, saves: nat, threshold: nat, n: nat)
    ensures Ticks(counter, saves, threshold, n + 1) ==
      var (c, s) := Ticks(counter, saves, threshold, n); Tick(c, s, threshold)
    decreases n
  {
    if n > 0 {
      var (c, s) := Tick(counter, saves, threshold);
      TicksSplit(c, s, threshold, n - 1);
    }
  }
}
