/** `SystemSensor.check_threat` as a function of what it reads: the CPU
    percentage, the number of inet connections (None when `psutil` raised),
    and the value drawn by `random.uniform(0.0, 0.2)`. */
module SystemSensor {
  import opened Common

  const Name: seq<char> := "System Telemetry"
  const Weight: real := 1.0

  function CpuContribution(cpuPercent: real): real {
    if cpuPercent > 80.0 then 0.4 else if cpuPercent > 50.0 then 0.2 else 0.0
  }

  /** A failed connection probe contributes nothing. */
  function NetContribution(connections: Option<nat>): real {
    match connections
    case None => 0.0
    case Some(n) => if n > 100 then 0.3 else if n > 50 then 0.1 else 0.0
  }

  /** The base threat plus jitter, capped at 1.0. */
  function Score(cpuPercent: real, connections: Option<nat>, jitter: real): (t: real)
    ensures t <= 1.0
    ensures 0.0 <= jitter <= 0.2 ==> 0.0 <= t <= 0.9
  {
    var threat := CpuContribution(cpuPercent) + NetContribution(connections) + jitter;
    if threat < 1.0 then threat else 1.0
  }

  /** The CPU bands: strictly above 80 adds 0.4, above 50 up to 80 adds 0.2,
      nothing otherwise. */
  lemma CpuBands(cpuPercent: real)
    ensures CpuContribution(cpuPercent) == 0.4 <==> cpuPercent > 80.0
    ensures CpuContribution(cpuPercent) == 0.2 <==> 50.0 < cpuPercent <= 80.0
    ensures CpuContribution(cpuPercent) == 0.0 <==> cpuPercent <= 50.0
  {
  }

  /** The connection bands: more than 100 adds 0.3, 51 to 100 adds 0.1,
      nothing otherwise or when the count is unavailable. */
  lemma NetBands(connections: Option<nat>)
    ensures NetContribution(connections) == 0.3 <==> connections.Some? && connections.value > 100
    ensures NetContribution(connections) == 0.1 <==> connections.Some? && 50 < connections.value <= 100
    ensures NetContribution(connections) == 0.0 <==> connections.None? || connections.value <= 50
  {
  }

  /** With jitter in range the cap never binds: the score is the plain sum. */
  lemma CapNeverBinds(cpuPercent: real, connections: Option<nat>, jitter: real)
    requires 0.0 <= jitter <= 0.2
    ensures Score(cpuPercent, connections, jitter)
         == CpuContribution(cpuPercent) + NetContribution(connections) + jitter
  {
  }

  /** A failed connection probe scores like a quiet network. */
  lemma FailedProbeIsQuiet(cpuPercent: real, jitter: real)
    ensures Score(cpuPercent, None, jitter) == Score(cpuPercent, Some(0), jitter)
  {
  }
}
