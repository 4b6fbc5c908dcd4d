/** `BaseSensor` and its three subclasses as one datatype. A sensor's
    `check_threat` reads the operating system; here everything it reads in
    one poll is a `Probe`, and the poll returns the score together with the
    sensor afterwards (only the keyboard sensor has state that a poll can
    change). */
module Sensors {
  import opened Common
  import SystemSensor
  import FileSensor
  import KeyboardSensor

  /** The contract of `check_threat`: 0.0 is no threat, 1.0 the maximum. */
  predicate IsScore(x: real) {
    0.0 <= x <= 1.0
  }

  datatype Kind =
    | SystemTelemetry
    | FileIntegrity(targetDir: FileSensor.Path, snapshot: map<FileSensor.Path, real>)
    | KeyboardPanic(triggered: bool)

  datatype Sensor = Sensor(name: seq<char>, weight: real, kind: Kind)

  /** What one poll observes: the CPU percentage, the inet connection count
      (None when `psutil` raised), the jitter drawn from
      `random.uniform(0.0, 0.2)`, the walk of the target directory with the
      readable modification times, and the character waiting on standard
      input. Each sensor reads only its own part. */
  datatype Probe = Probe(
    cpuPercent: real,
    connections: Option<nat>,
    jitter: real,
    walk: seq<FileSensor.WalkEntry>,
    mtimes: map<FileSensor.Path, real>,
    pending: Option<char>)

  /** The probe's values stay within what the operating system and `random`
      can report. */
  predicate Plausible(probe: Probe) {
    0.0 <= probe.jitter <= 0.2
  }

  /** `BaseSensor.__init__`, whose weight defaults to 1.0. */
  function NewSensor(name: seq<char>, kind: Kind, weight: real := 1.0): (s: Sensor)
    ensures s.name == name && s.kind == kind && s.weight == weight
  {
    Sensor(name, weight, kind)
  }

  function NewSystemSensor(): (s: Sensor)
    ensures s.weight == 1.0 && s.kind.SystemTelemetry?
  {
    NewSensor(SystemSensor.Name, SystemTelemetry, SystemSensor.Weight)
  }

  /** `FileIntegritySensor(target_dir)`: the snapshot is taken from the walk
      and times observed at construction. */
  function NewFileSensor(targetDir: FileSensor.Path, walk: seq<FileSensor.WalkEntry>, mtimes: map<FileSensor.Path, real>): (s: Sensor)
    ensures s.weight == 2.0 && s.kind.FileIntegrity? && s.kind.targetDir == targetDir
    ensures s.kind.snapshot.Keys <= set p | p in FileSensor.Included(walk)
  {
    NewSensor(FileSensor.Name, FileIntegrity(targetDir, FileSensor.TakeSnapshot(walk, mtimes)), FileSensor.Weight)
  }

  function NewKeyboardSensor(): (s: Sensor)
    ensures s.weight == 10.0 && s.kind == KeyboardPanic(false)
  {
    NewSensor(KeyboardSensor.Name, KeyboardPanic(false), KeyboardSensor.Weight)
  }

  datatype Reading = Reading(score: real, sensor: Sensor)

  /** One `check_threat` call. */
  function Check(s: Sensor, probe: Probe): (r: Reading)
    ensures Plausible(probe) ==> IsScore(r.score)
    ensures r.sensor.name == s.name && r.sensor.weight == s.weight
    ensures !s.kind.KeyboardPanic? ==> r.sensor == s
    ensures s.kind.KeyboardPanic? ==> r.sensor.kind.KeyboardPanic?
  {
    match s.kind
    case SystemTelemetry =>
      Reading(SystemSensor.Score(probe.cpuPercent, probe.connections, probe.jitter), s)
    case FileIntegrity(_, snapshot) =>
      Reading(FileSensor.CheckThreat(snapshot, probe.walk, probe.mtimes), s)
    case KeyboardPanic(triggered) =>
      var step := KeyboardSensor.CheckThreat(triggered, probe.pending);
      Reading(step.score, s.(kind := KeyboardPanic(step.triggered)))
  }

  /** `KeyboardPanicSensor.reset`; other sensors have no such method. */
  function Reset(s: Sensor): (r: Sensor)
    requires s.kind.KeyboardPanic?
    ensures r.kind == KeyboardPanic(false) && r.name == s.name && r.weight == s.weight
  {
    s.(kind := KeyboardPanic(KeyboardSensor.Reset()))
  }

  /** A triggered keyboard sensor scores 1.0 on every later poll. */
  lemma TriggeredKeyboardScoresOne(s: Sensor, probe: Probe)
    requires s.kind == KeyboardPanic(true)
    ensures Check(s, probe).score == 1.0 && Check(s, probe).sensor == s
  {
  }
}
