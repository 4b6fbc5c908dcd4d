/** The web application's global state and the steps its background loops
    and callbacks take: the bounded activity log, the activity clock, one
    iteration of the dead-man's switch, one iteration of the monitor loop,
    the burn-on-breach callback, and how the monitor is wired at start-up.

    Clock readings (`time.time()`, and the `%H:%M:%S` text of
    `datetime.now()` stamped on a log entry) are arguments; one reading
    serves a whole step. */
module WebApp {
  import opened Common
  import Crypto
  import opened Session
  import SessionProperties
  import opened Sensors
  import opened Monitor
  import FileSensor
  import SystemSensor

  datatype Severity = Info | Warning | Critical

  /** A log message. The elevated-threat warning carries the level, which the
      source prints rounded to two decimals. */
  datatype Message = Text(text: seq<char>) | ElevatedThreat(level: real)

  datatype LogEntry = LogEntry(time: seq<char>, level: Severity, message: Message)

  const MaxLogs: nat := 50
  const DeadmanTimeout: real := 300.0
  const WarningLevel: real := 0.5
  const AppThreshold: real := 0.9

  const DeadmanMessage: Message := Text("Dead Man's Switch: Inactivity detected. Auto-panic triggered.")
  const BreachMessage: Message := Text("THREAT THRESHOLD BREACHED! AUTO-BURN INITIATED.")
  const StartupMessage: Message := Text("System Startup. Initializing Session...")

  datatype App = App(world: World, monitor: ThreatMonitor, logs: seq<LogEntry>, lastActivity: real)

  /** `add_log`: append, then drop the oldest entry once there are more than
      fifty. */
  function AddLog(logs: seq<LogEntry>, entry: LogEntry): (r: seq<LogEntry>)
    ensures |logs| <= MaxLogs ==> |r| <= MaxLogs
    ensures |r| > 0 && r[|r| - 1] == entry
    ensures |logs| < MaxLogs ==> r == logs + [entry]
    ensures |logs| == MaxLogs ==> r == logs[1..] + [entry]
  {
    var l := logs + [entry];
    if |l| > MaxLogs then l[1..] else l
  }

  /** The last `n` elements of `s` (all of it when it is shorter). */
  function Newest<T>(s: seq<T>, n: nat): seq<T> {
    if |s| <= n then s else s[|s| - n..]
  }

  function AddLogs(logs: seq<LogEntry>, entries: seq<LogEntry>): seq<LogEntry>
    decreases |entries|
  {
    if |entries| == 0 then logs else AddLogs(AddLog(logs, entries[0]), entries[1..])
  }

  /** However many entries are added, the log holds exactly the fifty most
      recent ones, oldest first. */
  lemma {:induction false} LogKeepsNewest(logs: seq<LogEntry>, entries: seq<LogEntry>)
    requires |logs| <= MaxLogs
    ensures AddLogs(logs, entries) == Newest(Newest(logs, MaxLogs) + entries, MaxLogs)
    decreases |entries|
  {
    if |entries| > 0 {
      var e, rest := entries[0], entries[1..];
      var l1 := AddLog(logs, e);
      LogKeepsNewest(l1, rest);
      assert Newest(l1, MaxLogs) == l1;
      AddLogStep(logs, e, rest);
      assert Newest(logs, MaxLogs) == logs;
      assert entries == [e] + rest;
    }
  }

  /** One entry added to the log, then the rest: the same newest fifty as
      adding all of them at once. */
  lemma AddLogStep(logs: seq<LogEntry>, e: LogEntry, rest: seq<LogEntry>)
    requires |logs| <= MaxLogs
    ensures Newest(AddLog(logs, e) + rest, MaxLogs) == Newest(logs + ([e] + rest), MaxLogs)
  {
    var all := logs + ([e] + rest);
    if |logs| < MaxLogs {
      assert AddLog(logs, e) + rest == all;
    } else {
      assert AddLog(logs, e) + rest == all[1..];
      NewestDropsFirst(all, MaxLogs);
    }
  }

  /** Dropping the oldest of more than `n` elements leaves the newest `n`. */
  lemma NewestDropsFirst<T>(s: seq<T>, n: nat)
    requires |s| > n
    ensures Newest(s[1..], n) == Newest(s, n)
  {
    if |s| - 1 > n {
      assert s[1..][|s| - 1 - n..] == s[|s| - n..];
    }
  }

  function Log(app: App, stamp: seq<char>, level: Severity, message: Message): (r: App)
    ensures r.logs == AddLog(app.logs, LogEntry(stamp, level, message))
    ensures r.world == app.world && r.monitor == app.monitor && r.lastActivity == app.lastActivity
  {
    app.(logs := AddLog(app.logs, LogEntry(stamp, level, message)))
  }

  /** `update_activity`, which `record_activity` calls. */
  function RecordActivity(app: App, now: real): (r: App)
    ensures r.lastActivity == now
    ensures r.world == app.world && r.monitor == app.monitor && r.logs == app.logs
  {
    app.(lastActivity := now)
  }

  /** One iteration of `deadman_loop`. */
  function DeadmanStep(app: App, now: real, stamp: seq<char>, removal: Removal): (r: App)
    ensures !app.world.manager.isActive ==> r == app
    ensures now - app.lastActivity <= DeadmanTimeout ==> r == app
    ensures app.world.manager.isActive && now - app.lastActivity > DeadmanTimeout ==>
              && r.logs == AddLog(app.logs, LogEntry(stamp, Critical, DeadmanMessage))
              && r.world == BurnSession(app.world, removal)
              && r.monitor == app.monitor && r.lastActivity == app.lastActivity
  {
    if app.world.manager.isActive && now - app.lastActivity > DeadmanTimeout then
      var a := Log(app, stamp, Critical, DeadmanMessage);
      a.(world := BurnSession(a.world, removal))
    else
      app
  }

  /** `on_breach`: log, then burn. */
  function OnBreach(app: App, stamp: seq<char>, removal: Removal): (r: App)
    ensures r.logs == AddLog(app.logs, LogEntry(stamp, Critical, BreachMessage))
    ensures r.world == BurnSession(app.world, removal)
    ensures r.monitor == app.monitor && r.lastActivity == app.lastActivity
  {
    var a := Log(app, stamp, Critical, BreachMessage);
    a.(world := BurnSession(a.world, removal))
  }

  /** Calling the monitor's `on_threshold_breach`. */
  function Fire(h: Handler, app: App, stamp: seq<char>, removal: Removal): (r: App)
    ensures h == Nothing ==> r == app
    ensures h == AutoBurn ==> r == OnBreach(app, stamp, removal)
  {
    match h
    case Nothing => app
    case AutoBurn => OnBreach(app, stamp, removal)
  }

  /** One iteration of `monitor_loop`: only while the session is active,
      check the threats (firing the callback on a breach), then warn when the
      stored level is above 0.5. */
  function MonitorStep(app: App, probes: seq<Probe>, stamp: seq<char>, removal: Removal): (r: App)
    requires |probes| == |app.monitor.sensors|
    ensures !app.world.manager.isActive ==> r == app
    ensures app.world.manager.isActive ==>
              var e := CheckThreats(app.monitor, probes);
              && r.monitor == e.monitor
              && r.lastActivity == app.lastActivity
              && r.world == (if e.breached && app.monitor.onBreach == AutoBurn
                             then BurnSession(app.world, removal) else app.world)
    ensures app.world.manager.isActive ==>
              var e := CheckThreats(app.monitor, probes);
              var afterBreach := if e.breached && app.monitor.onBreach == AutoBurn
                                 then AddLog(app.logs, LogEntry(stamp, Critical, BreachMessage)) else app.logs;
              r.logs == if e.monitor.currentLevel > WarningLevel
                        then AddLog(afterBreach, LogEntry(stamp, Warning, ElevatedThreat(e.monitor.currentLevel)))
                        else afterBreach
  {
    if !app.world.manager.isActive then app
    else
      var e := CheckThreats(app.monitor, probes);
      var a := app.(monitor := e.monitor);
      var b := if e.breached then Fire(a.monitor.onBreach, a, stamp, removal) else a;
      if b.monitor.currentLevel > WarningLevel then
        Log(b, stamp, Warning, ElevatedThreat(b.monitor.currentLevel))
      else b
  }

  /** The module-level set-up: a monitor at threshold 0.9 holding the system
      sensor and a file sensor over the project root (whose snapshot is taken
      now), with `on_breach` installed; an inactive session; an empty log;
      the activity clock at `now`. */
  function NewApp(projectRoot: FileSensor.Path, walk: seq<FileSensor.WalkEntry>,
                  mtimes: map<FileSensor.Path, real>, disk: Disk, now: real): (r: App)
    ensures r.monitor.sensors == [NewSystemSensor(), NewFileSensor(projectRoot, walk, mtimes)]
    ensures r.monitor.threshold == AppThreshold && r.monitor.onBreach == AutoBurn
    ensures r.monitor.currentLevel == 0.0
    ensures r.world == World(Init(), disk) && r.logs == [] && r.lastActivity == now
  {
    var m := AddSensor(AddSensor(New(AppThreshold), NewSystemSensor()), NewFileSensor(projectRoot, walk, mtimes));
    App(World(Init(), disk), m.(onBreach := AutoBurn), [], now)
  }

  /** `startup_event`: log, start the session, log the first eight
      characters of its hash. */
  function Startup(p: Crypto.Primitives, app: App, env: StartInputs, stamp: seq<char>): (r: App)
    requires Crypto.Valid(p)
    requires FreshDir(app.world.disk, env.tempDir)
    ensures r.world.manager.isActive && Consistent(p, r.world)
    ensures r.monitor == app.monitor && r.lastActivity == app.lastActivity
    ensures r.world.manager.sessionHash.Some?
    ensures r.logs == AddLog(AddLog(app.logs, LogEntry(stamp, Info, StartupMessage)),
              LogEntry(stamp, Info, Text("Session Active. Hash: " + PyPrefix(r.world.manager.sessionHash.value, 8) + "...")))
  {
    var a := Log(app, stamp, Info, StartupMessage);
    var w := Start(p, a.world, env);
    var hash := w.manager.sessionHash.value;
    Log(a.(world := w), stamp, Info, Text("Session Active. Hash: " + PyPrefix(hash, 8) + "..."))
  }

  /** The dead-man's switch burns exactly when the session is active and more
      than 300 seconds have passed since the last activity; at exactly 300 it
      waits. */
  lemma DeadmanBurnsIff(p: Crypto.Primitives, app: App, now: real, stamp: seq<char>, removal: Removal)
    requires Crypto.Valid(p) && Consistent(p, app.world)
    ensures var r := DeadmanStep(app, now, stamp, removal);
      r.world.manager.isActive <==> app.world.manager.isActive && now - app.lastActivity <= DeadmanTimeout
  {
  }

  /** Activity recorded at `now` keeps a step at the same `now` from burning. */
  lemma ActivityDefersDeadman(app: App, now: real, stamp: seq<char>, removal: Removal)
    ensures DeadmanStep(RecordActivity(app, now), now, stamp, removal) == RecordActivity(app, now)
  {
  }

  /** After the switch has fired, later steps change nothing: there is no
      second burn and no second log entry. */
  lemma DeadmanFiresOnce(p: Crypto.Primitives, app: App, now: real, later: real,
                         stamp: seq<char>, stamp2: seq<char>, removal: Removal, removal2: Removal)
    requires Crypto.Valid(p) && Consistent(p, app.world)
    requires app.world.manager.isActive && now - app.lastActivity > DeadmanTimeout
    ensures var r := DeadmanStep(app, now, stamp, removal);
      DeadmanStep(r, later, stamp2, removal2) == r
  {
  }

  /** Every step keeps the session life-cycle invariant. */
  lemma StepsPreserveConsistent(p: Crypto.Primitives, app: App, probes: seq<Probe>,
                                now: real, stamp: seq<char>, removal: Removal)
    requires Crypto.Valid(p) && Consistent(p, app.world)
    requires |probes| == |app.monitor.sensors|
    ensures Consistent(p, DeadmanStep(app, now, stamp, removal).world)
    ensures Consistent(p, MonitorStep(app, probes, stamp, removal).world)
    ensures Consistent(p, OnBreach(app, stamp, removal).world)
    ensures Consistent(p, RecordActivity(app, now).world)
  {
    SessionProperties.BurnPreservesConsistent(p, app.world, removal);
  }

  /** With the system sensor (weight 1) and the file sensor (weight 2), the
      level is (s + 2f) / 3; since the file score is 0 or 1, the threshold 0.9
      is reached only on a file change with a system score of at least 0.7. */
  lemma WiredLevel(sys: Sensor, file: Sensor, s: real, f: real)
    requires sys.weight == 1.0 && file.weight == 2.0
    requires IsScore(s) && (f == 0.0 || f == 1.0)
    ensures Level([sys, file], [s, f]) == (s + 2.0 * f) / 3.0
    ensures Level([sys, file], [s, f]) >= AppThreshold <==> f == 1.0 && s >= 0.7
  {
    PairSums(sys, file, s, f);
  }

  /** The monitor as wired. */
  predicate Wired(m: ThreatMonitor) {
    && |m.sensors| == 2
    && m.sensors[0] == NewSystemSensor()
    && m.sensors[1].kind.FileIntegrity? && m.sensors[1].weight == FileSensor.Weight
    && m.threshold == AppThreshold && m.onBreach == AutoBurn
  }

  /** End to end: one monitor step on the wired application burns an active
      session exactly when the project files changed since the snapshot and
      the system score is at least 0.7. */
  lemma WiredMonitorBurnsIff(p: Crypto.Primitives, app: App, probes: seq<Probe>, stamp: seq<char>, removal: Removal)
    requires Crypto.Valid(p) && Consistent(p, app.world) && app.world.manager.isActive
    requires Wired(app.monitor) && |probes| == 2 && Plausible(probes[0])
    ensures var file := app.monitor.sensors[1].kind;
      var s := SystemSensor.Score(probes[0].cpuPercent, probes[0].connections, probes[0].jitter);
      var tampered := FileSensor.Tampered(file.snapshot, FileSensor.Included(probes[1].walk), probes[1].mtimes);
      !MonitorStep(app, probes, stamp, removal).world.manager.isActive <==> tampered && s >= 0.7
  {
    var m := app.monitor;
    var rs := Poll(m.sensors, probes);
    var xs := Scores(rs);
    assert m.sensors == [m.sensors[0], m.sensors[1]];
    assert xs == [xs[0], xs[1]];
    WiredLevel(m.sensors[0], m.sensors[1], xs[0], xs[1]);
  }

  /** In particular, without a change to the project files the wired monitor
      never burns the session, whatever the system sensor reports. */
  lemma NoBurnWithoutFileChange(p: Crypto.Primitives, app: App, probes: seq<Probe>, stamp: seq<char>, removal: Removal)
    requires Crypto.Valid(p) && Consistent(p, app.world) && app.world.manager.isActive
    requires Wired(app.monitor) && |probes| == 2 && Plausible(probes[0])
    requires !FileSensor.Tampered(app.monitor.sensors[1].kind.snapshot, FileSensor.Included(probes[1].walk), probes[1].mtimes)
    ensures MonitorStep(app, probes, stamp, removal).world.manager.isActive
  {
    WiredMonitorBurnsIff(p, app, probes, stamp, removal);
  }
}
