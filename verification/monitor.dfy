/** `ThreatMonitor`: polls every sensor, combines the scores into a
    weighted mean, remembers it, and reports a breach when the mean reaches
    the threshold. The breach callback is a `Handler` value that the web
    application interprets, so a check says whether the callback fires
    (at most once per check) rather than running it. */
module Monitor {
  import opened Sensors

  /** The callbacks the application installs: the default `lambda: None`
      and the application's burn-on-breach handler. */
  datatype Handler = Nothing | AutoBurn

  datatype ThreatMonitor = ThreatMonitor(
    sensors: seq<Sensor>,
    threshold: real,
    currentLevel: real,
    onBreach: Handler)

  function New(threshold: real := 0.9): (m: ThreatMonitor)
    ensures m.sensors == [] && m.threshold == threshold
    ensures m.currentLevel == 0.0 && m.onBreach == Nothing
  {
    ThreatMonitor([], threshold, 0.0, Nothing)
  }

  /** `add_sensor`: appended after the sensors already present; nothing else
      changes. */
  function AddSensor(m: ThreatMonitor, s: Sensor): (r: ThreatMonitor)
    ensures r.sensors == m.sensors + [s]
    ensures r.threshold == m.threshold && r.currentLevel == m.currentLevel && r.onBreach == m.onBreach
  {
    m.(sensors := m.sensors + [s])
  }

  function TotalWeight(sensors: seq<Sensor>): real {
    if |sensors| == 0 then 0.0
    else TotalWeight(sensors[..|sensors| - 1]) + sensors[|sensors| - 1].weight
  }

  function WeightedScore(sensors: seq<Sensor>, scores: seq<real>): real
    requires |scores| == |sensors|
  {
    if |sensors| == 0 then 0.0
    else
      WeightedScore(sensors[..|sensors| - 1], scores[..|scores| - 1])
        + scores[|scores| - 1] * sensors[|sensors| - 1].weight
  }

  /** The weighted mean, or 0.0 when the weights add up to zero. */
  function Level(sensors: seq<Sensor>, scores: seq<real>): (level: real)
    requires |scores| == |sensors|
    ensures TotalWeight(sensors) == 0.0 ==> level == 0.0
    ensures TotalWeight(sensors) != 0.0 ==> level * TotalWeight(sensors) == WeightedScore(sensors, scores)
  {
    var w := TotalWeight(sensors);
    if w == 0.0 then 0.0 else WeightedScore(sensors, scores) / w
  }

  /** Every sensor polled once, in order, each with its own probe. */
  function Poll(sensors: seq<Sensor>, probes: seq<Probe>): (rs: seq<Reading>)
    requires |probes| == |sensors|
    ensures |rs| == |sensors|
    ensures forall i :: 0 <= i < |rs| ==> rs[i] == Check(sensors[i], probes[i])
  {
    seq(|sensors|, i requires 0 <= i < |sensors| => Check(sensors[i], probes[i]))
  }

  function Scores(rs: seq<Reading>): (xs: seq<real>)
    ensures |xs| == |rs| && forall i :: 0 <= i < |rs| ==> xs[i] == rs[i].score
  {
    seq(|rs|, i requires 0 <= i < |rs| => rs[i].score)
  }

  function After(rs: seq<Reading>): (ss: seq<Sensor>)
    ensures |ss| == |rs| && forall i :: 0 <= i < |rs| ==> ss[i] == rs[i].sensor
  {
    seq(|rs|, i requires 0 <= i < |rs| => rs[i].sensor)
  }

  /** The outcome of `check_threats`: the level it returns, the monitor
      afterwards, and whether `on_threshold_breach` is called. */
  datatype Evaluation = Evaluation(level: real, monitor: ThreatMonitor, breached: bool)

  predicate PositiveWeights(sensors: seq<Sensor>) {
    forall i :: 0 <= i < |sensors| ==> sensors[i].weight > 0.0
  }

  /** `check_threats`. With no sensors it returns 0.0 and leaves everything,
      including the stored level, as it was. */
  function CheckThreats(m: ThreatMonitor, probes: seq<Probe>): (r: Evaluation)
    requires |probes| == |m.sensors|
    ensures |m.sensors| == 0 ==> r == Evaluation(0.0, m, false)
    ensures |m.sensors| > 0 ==> r.monitor.currentLevel == r.level
    ensures |m.sensors| > 0 ==> r.level == Level(m.sensors, Scores(Poll(m.sensors, probes)))
    ensures r.monitor.threshold == m.threshold && r.monitor.onBreach == m.onBreach
    ensures |r.monitor.sensors| == |m.sensors|
    ensures forall i :: 0 <= i < |m.sensors| ==>
              r.monitor.sensors[i] == Check(m.sensors[i], probes[i]).sensor
    ensures r.breached <==> |m.sensors| > 0 && r.level >= m.threshold
    ensures PositiveWeights(m.sensors) && (forall i :: 0 <= i < |probes| ==> Plausible(probes[i])) ==>
              0.0 <= r.level <= 1.0
  {
    if |m.sensors| == 0 then Evaluation(0.0, m, false)
    else
      var rs := Poll(m.sensors, probes);
      var level := Level(m.sensors, Scores(rs));
      LevelIsScore(m.sensors, Scores(rs));
      Evaluation(level, m.(sensors := After(rs), currentLevel := level), level >= m.threshold)
  }

  /** The accumulation loop of `check_threats`, left to right. */
  method Aggregate(sensors: seq<Sensor>, scores: seq<real>) returns (level: real)
    requires |scores| == |sensors|
    ensures level == Level(sensors, scores)
  {
    var totalScore := 0.0;
    var totalWeight := 0.0;
    var i := 0;
    while i < |sensors|
      invariant 0 <= i <= |sensors|
      invariant totalScore == WeightedScore(sensors[..i], scores[..i])
      invariant totalWeight == TotalWeight(sensors[..i])
    {
      assert sensors[..i + 1][..i] == sensors[..i];
      assert scores[..i + 1][..i] == scores[..i];
      totalScore := totalScore + scores[i] * sensors[i].weight;
      totalWeight := totalWeight + sensors[i].weight;
      i := i + 1;
    }
    assert sensors[..i] == sensors && scores[..i] == scores;
    if totalWeight == 0.0 {
      level := 0.0;
    } else {
      level := totalScore / totalWeight;
    }
  }

  /** Scores in [0, 1] and positive weights: the weighted sum lies between 0
      and the total weight, which is positive unless there are no sensors. */
  lemma {:induction false} WeightedScoreBounds(sensors: seq<Sensor>, scores: seq<real>)
    requires |scores| == |sensors| && PositiveWeights(sensors)
    requires forall i :: 0 <= i < |scores| ==> IsScore(scores[i])
    ensures 0.0 <= WeightedScore(sensors, scores) <= TotalWeight(sensors)
    ensures |sensors| > 0 ==> TotalWeight(sensors) > 0.0
  {
    if |sensors| > 0 {
      var n := |sensors| - 1;
      var pre, preScores := sensors[..n], scores[..n];
      assert forall i :: 0 <= i < n ==> pre[i] == sensors[i] && preScores[i] == scores[i];
      WeightedScoreBounds(pre, preScores);
      StepBound(WeightedScore(pre, preScores), TotalWeight(pre), scores[n], sensors[n].weight);
    }
  }

  /** One more sensor keeps the weighted sum between 0 and the total. */
  lemma StepBound(ws: real, tw: real, x: real, w: real)
    requires 0.0 <= ws <= tw && 0.0 <= x <= 1.0 && w > 0.0
    ensures 0.0 <= ws + x * w <= tw + w && tw + w > 0.0
  {
    ProductBound(x, w);
  }

  lemma ProductBound(x: real, w: real)
    requires 0.0 <= x <= 1.0 && w > 0.0
    ensures 0.0 <= x * w <= w
  {
  }

  lemma QuotientBound(s: real, w: real)
    requires 0.0 <= s <= w && w > 0.0
    ensures 0.0 <= s / w <= 1.0
  {
    var q := s / w;
    assert q * w == s;
  }

  /** The sums over two sensors, written out. */
  lemma PairSums(a: Sensor, b: Sensor, x: real, y: real)
    ensures TotalWeight([a, b]) == a.weight + b.weight
    ensures WeightedScore([a, b], [x, y]) == x * a.weight + y * b.weight
  {
    assert [a, b][..1] == [a] && [x, y][..1] == [x];
    assert [a][..0] == [] && [x][..0] == [];
    assert TotalWeight([a]) == a.weight;
    assert WeightedScore([a], [x]) == x * a.weight;
  }

  /** The aggregate of scores in [0, 1] under positive weights is itself a
      score. */
  lemma LevelIsScore(sensors: seq<Sensor>, scores: seq<real>)
    requires |scores| == |sensors|
    ensures PositiveWeights(sensors) && (forall i :: 0 <= i < |scores| ==> IsScore(scores[i])) ==>
              IsScore(Level(sensors, scores))
  {
    if PositiveWeights(sensors) && (forall i :: 0 <= i < |scores| ==> IsScore(scores[i])) {
      WeightedScoreBounds(sensors, scores);
      var w := TotalWeight(sensors);
      if w != 0.0 {
        var s := WeightedScore(sensors, scores);
        QuotientBound(s, w);
      }
    }
  }

  /** A weight-10 sensor at 1.0 beside a weight-1 sensor lifts the mean to at
      least 10/11, past the default threshold of 0.9, whatever the other
      score is. */
  lemma PanicOutweighs(other: Sensor, panic: Sensor, x: real)
    requires other.weight == 1.0 && panic.weight == 10.0 && IsScore(x)
    ensures Level([other, panic], [x, 1.0]) >= 10.0 / 11.0 > 0.9
    ensures Level([panic, other], [1.0, x]) >= 10.0 / 11.0 > 0.9
  {
    PairSums(other, panic, x, 1.0);
    PairSums(panic, other, 1.0, x);
  }

  /** So a monitor at the default threshold holding a weight-1 sensor and a
      triggered keyboard sensor breaches on every check. */
  lemma TriggeredKeyboardBreaches(m: ThreatMonitor, probes: seq<Probe>)
    requires m.threshold == 0.9 && |m.sensors| == 2 && |probes| == 2
    requires m.sensors[0].weight == 1.0 && Plausible(probes[0])
    requires m.sensors[1] == NewKeyboardSensor().(kind := KeyboardPanic(true))
    requires m.sensors[0].kind.SystemTelemetry? || m.sensors[0].kind.FileIntegrity?
    ensures CheckThreats(m, probes).breached
  {
    var rs := Poll(m.sensors, probes);
    assert m.sensors == [m.sensors[0], m.sensors[1]];
    assert Scores(rs) == [rs[0].score, 1.0];
    PanicOutweighs(m.sensors[0], m.sensors[1], rs[0].score);
  }
}
