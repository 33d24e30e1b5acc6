/** What the detector reports at the end of any run, metric by metric, and why a check is listed as not run. */
module AnomalyReports {
  import opened AnomalyRules
  import opened AnomalyRuns
  import opened Recent
  import opened Reals
  import opened Statistics
  import opened Text

  // ---- anomalies ----

  /** The time since the detector was made, which never goes below zero. */
  function Since(start: nat, now: nat): nat {
    if now < start then 0 else now - start
  }

  /** An anomaly is reported exactly when it is its rule's answer and its key has rested. */
  lemma AnomalyIff(config: Config, start: nat, ops: seq<Op>, later: seq<nat>, a: Anomaly)
    requires IsRun(ops) && IsClock(later) && Forward(ops + [Detect(later)])
    ensures var s, log := Run(Initial(config, start), ops), Log(Initial(config, start), ops);
      var r := Owner(a.metric);
      s.config == config &&
      (a in Detected(s, later).anomalies <==>
        && Rule(s, r) == Some(Alert(a.metric, a.severity, a.currentValue))
        && Rested(log, a.metric, config.alertCooldown, later[1 + 2 * r])
        && a.timestamp == Since(start, later[0]))
  {
    WindowsAre(config, start, ops);
    hide Held;
    var s, r := Run(Initial(config, start), ops), Owner(a.metric);
    hide Run, Log, Rested, Rule;
    if Rule(s, r).Some? {
      CooldownIff(config, start, ops, later, r);
    }
    AnomalyRaised(s, later, a);
  }

  lemma AnomalyRaised(s: State, clock: seq<nat>, a: Anomaly)
    requires IsClock(clock)
    ensures var r := Owner(a.metric);
      a in Detected(s, clock).anomalies <==> Raises(s, clock, r) && Raised(s, clock, r).anomaly == a
  {
    AfterIs(s, clock, RULES);
    var events, r := After(s, clock, RULES).events, Owner(a.metric);
    hide After, Rule;
    if a in Detected(s, clock).anomalies {
      var m :| 0 <= m < |events| && Detected(s, clock).anomalies[m] == a;
      assert events[m] in events;
      var i :| 0 <= i < RULES && Raises(s, clock, i) && events[m] == Raised(s, clock, i);
      RuleOwnsKey(s, i);
    }
    if Raises(s, clock, r) && Raised(s, clock, r).anomaly == a {
      assert Raised(s, clock, r) in events;
      var m :| 0 <= m < |events| && events[m] == Raised(s, clock, r);
      assert Detected(s, clock).anomalies[m] == a;
    }
  }

  // ---- what each rule answers ----

  function OneAndAHalf(t: real): real {
    t * 1.5
  }

  function Megabytes(bytes: real): real {
    bytes / 1000000.0
  }

  lemma MemoryAnswers(s: State, a: Alert)
    ensures a.key == Memory && Rule(s, 2) == Some(a) <==>
        && s.memory != []
        && var newest := s.memory[|s.memory| - 1];
           && (newest >= s.config.memoryCritical || newest >= s.config.memoryWarning)
           && a == Alert(Memory, if newest >= s.config.memoryCritical then Critical else Warning, newest)
  {
    hide ZBeyond, ZAbove, Trend;
  }

  lemma CpuAnswers(s: State, a: Alert)
    ensures a.key == Cpu && Rule(s, 0) == Some(a) <==>
        && s.cpu != []
        && var newest := s.cpu[|s.cpu| - 1];
           && (newest >= s.config.cpuCritical || newest >= s.config.cpuWarning)
           && a == Alert(Cpu, if newest >= s.config.cpuCritical then Critical else Warning, newest)
  {
    hide ZBeyond, ZAbove, Trend;
  }

  lemma CpuSpikeAnswers(s: State, a: Alert)
    ensures a.key == CpuSpike && Rule(s, 0) == Some(a) <==>
        && s.cpu != [] && |s.cpu| >= s.config.minSamples
        && var newest := s.cpu[|s.cpu| - 1];
           && newest < s.config.cpuCritical && newest < s.config.cpuWarning
           && ZBeyond(s.cpu, newest, s.config.zScoreThreshold)
           && a == Alert(CpuSpike, Info, newest)
  {
    hide ZBeyond, ZAbove, Trend;
  }

  lemma CpuTrendAnswers(s: State, a: Alert)
    ensures a.key == CpuTrend && Rule(s, 1) == Some(a) <==>
        && s.cpu != [] && |s.cpu| >= s.config.minSamples && Trend(s.cpu) > 15.0
        && a == Alert(CpuTrend, Warning, s.cpu[|s.cpu| - 1])
  {
    hide ZBeyond, ZAbove, Trend;
  }

  lemma GpuTempAnswers(s: State, a: Alert)
    ensures a.key == GpuTemp && Rule(s, 3) == Some(a) <==>
        && s.gpuTempLatest.Some?
        && var latest := s.gpuTempLatest.value;
           && (latest >= s.config.gpuTempCritical || latest >= s.config.gpuTempWarning)
           && a == Alert(GpuTemp, if latest >= s.config.gpuTempCritical then Critical else Warning, latest)
  {
    hide ZBeyond, ZAbove, Trend;
  }

  lemma DiskAnswers(s: State, a: Alert)
    ensures a.key == Disk && Rule(s, 4) == Some(a) <==>
        && s.disk != [] && s.disk[|s.disk| - 1] >= s.config.diskWarning
        && a == Alert(Disk, Warning, s.disk[|s.disk| - 1])
  {
    hide ZBeyond, ZAbove, Trend;
  }

  lemma NetworkRxAnswers(s: State, a: Alert)
    ensures a.key == NetworkRx && Rule(s, 5) == Some(a) <==>
        && s.rx != [] && |s.rx| >= s.config.minSamples
        && var newest := s.rx[|s.rx| - 1];
           && ZAbove(s.rx, newest, OneAndAHalf(s.config.zScoreThreshold))
           && a == Alert(NetworkRx, Info, Megabytes(newest))
  {
    hide ZBeyond, ZAbove, Trend;
  }

  lemma OwnerIs(key: Key)
    ensures key == NetworkRx ==> Owner(key) == 5
    ensures key == CpuSpike ==> Owner(key) == 0
  {
  }

  // ---- what a detection reports ----

  /**
   * Memory: reported exactly when there is a reading, the newest is at or above a level and no memory alert is younger
   * than the cooldown. The report carries the reading, and is critical exactly from the critical level on.
   */
  lemma MemoryReported(config: Config, start: nat, ops: seq<Op>, later: seq<nat>, a: Anomaly)
    requires IsRun(ops) && IsClock(later) && Forward(ops + [Detect(later)])
    ensures var s, log := Run(Initial(config, start), ops), Log(Initial(config, start), ops);
      a.metric == Memory && a in Detected(s, later).anomalies <==>
        && s.memory != []
        && var newest := s.memory[|s.memory| - 1];
           && (newest >= config.memoryCritical || newest >= config.memoryWarning)
           && Rested(log, Memory, config.alertCooldown, later[5])
           && a == Anomaly(Memory, if newest >= config.memoryCritical then Critical else Warning, newest,
                           Since(start, later[0]))
  {
    AnomalyIff(config, start, ops, later, a);
    MemoryAnswers(Run(Initial(config, start), ops), Alert(a.metric, a.severity, a.currentValue));
    hide *;
  }

  /** The CPU levels: the same on CPU readings. */
  lemma CpuReported(config: Config, start: nat, ops: seq<Op>, later: seq<nat>, a: Anomaly)
    requires IsRun(ops) && IsClock(later) && Forward(ops + [Detect(later)])
    ensures var s, log := Run(Initial(config, start), ops), Log(Initial(config, start), ops);
      a.metric == Cpu && a in Detected(s, later).anomalies <==>
        && s.cpu != []
        && var newest := s.cpu[|s.cpu| - 1];
           && (newest >= config.cpuCritical || newest >= config.cpuWarning)
           && Rested(log, Cpu, config.alertCooldown, later[1])
           && a == Anomaly(Cpu, if newest >= config.cpuCritical then Critical else Warning, newest,
                           Since(start, later[0]))
  {
    AnomalyIff(config, start, ops, later, a);
    CpuAnswers(Run(Initial(config, start), ops), Alert(a.metric, a.severity, a.currentValue));
    hide *;
  }

  /** A CPU spike: below both levels, on enough samples, with a score beyond the threshold in either direction. */
  lemma CpuSpikeReported(config: Config, start: nat, ops: seq<Op>, later: seq<nat>, a: Anomaly)
    requires IsRun(ops) && IsClock(later) && Forward(ops + [Detect(later)])
    ensures var s, log := Run(Initial(config, start), ops), Log(Initial(config, start), ops);
      a.metric == CpuSpike && a in Detected(s, later).anomalies <==>
        && s.cpu != [] && |s.cpu| >= config.minSamples
        && var newest := s.cpu[|s.cpu| - 1];
           && newest < config.cpuCritical && newest < config.cpuWarning
           && ZBeyond(s.cpu, newest, config.zScoreThreshold)
           && Rested(log, CpuSpike, config.alertCooldown, later[1])
           && a == Anomaly(CpuSpike, Info, newest, Since(start, later[0]))
  {
    hide *;
    if a.metric == CpuSpike {
      var s := Run(Initial(config, start), ops);
      OwnerIs(a.metric);
      AnomalyIff(config, start, ops, later, a);
      CpuSpikeAnswers(s, Alert(a.metric, a.severity, a.currentValue));
    }
  }

  /** A CPU trend: a rise above 15 points on enough samples, whatever the levels say. */
  lemma CpuTrendReported(config: Config, start: nat, ops: seq<Op>, later: seq<nat>, a: Anomaly)
    requires IsRun(ops) && IsClock(later) && Forward(ops + [Detect(later)])
    ensures var s, log := Run(Initial(config, start), ops), Log(Initial(config, start), ops);
      a.metric == CpuTrend && a in Detected(s, later).anomalies <==>
        && s.cpu != [] && |s.cpu| >= config.minSamples && Trend(s.cpu) > 15.0
        && Rested(log, CpuTrend, config.alertCooldown, later[3])
        && a == Anomaly(CpuTrend, Warning, s.cpu[|s.cpu| - 1], Since(start, later[0]))
  {
    AnomalyIff(config, start, ops, later, a);
    CpuTrendAnswers(Run(Initial(config, start), ops), Alert(a.metric, a.severity, a.currentValue));
    hide *;
  }

  /** GPU temperature: the two levels on what the last record said, and nothing once the sensor could not be read. */
  lemma GpuTempReported(config: Config, start: nat, ops: seq<Op>, later: seq<nat>, a: Anomaly)
    requires IsRun(ops) && IsClock(later) && Forward(ops + [Detect(later)])
    ensures var s, log := Run(Initial(config, start), ops), Log(Initial(config, start), ops);
      a.metric == GpuTemp && a in Detected(s, later).anomalies <==>
        && s.gpuTempLatest.Some?
        && var latest := s.gpuTempLatest.value;
           && (latest >= config.gpuTempCritical || latest >= config.gpuTempWarning)
           && Rested(log, GpuTemp, config.alertCooldown, later[7])
           && a == Anomaly(GpuTemp, if latest >= config.gpuTempCritical then Critical else Warning, latest,
                           Since(start, later[0]))
  {
    AnomalyIff(config, start, ops, later, a);
    GpuTempAnswers(Run(Initial(config, start), ops), Alert(a.metric, a.severity, a.currentValue));
    hide *;
  }

  /** Disk usage has one level, a warning. */
  lemma DiskReported(config: Config, start: nat, ops: seq<Op>, later: seq<nat>, a: Anomaly)
    requires IsRun(ops) && IsClock(later) && Forward(ops + [Detect(later)])
    ensures var s, log := Run(Initial(config, start), ops), Log(Initial(config, start), ops);
      a.metric == Disk && a in Detected(s, later).anomalies <==>
        && s.disk != [] && s.disk[|s.disk| - 1] >= config.diskWarning
        && Rested(log, Disk, config.alertCooldown, later[9])
        && a == Anomaly(Disk, Warning, s.disk[|s.disk| - 1], Since(start, later[0]))
  {
    AnomalyIff(config, start, ops, later, a);
    DiskAnswers(Run(Initial(config, start), ops), Alert(a.metric, a.severity, a.currentValue));
    hide *;
  }

  /** Receive rate: a score above one and a half thresholds on enough samples, reported in megabytes. */
  lemma NetworkReported(config: Config, start: nat, ops: seq<Op>, later: seq<nat>, a: Anomaly)
    requires IsRun(ops) && IsClock(later) && Forward(ops + [Detect(later)])
    ensures var s, log := Run(Initial(config, start), ops), Log(Initial(config, start), ops);
      a.metric == NetworkRx && a in Detected(s, later).anomalies <==>
        && s.rx != [] && |s.rx| >= config.minSamples
        && var newest := s.rx[|s.rx| - 1];
           && ZAbove(s.rx, newest, OneAndAHalf(config.zScoreThreshold))
           && Rested(log, NetworkRx, config.alertCooldown, later[11])
           && a == Anomaly(NetworkRx, Info, Megabytes(newest), Since(start, later[0]))
  {
    hide *;
    if a.metric == NetworkRx {
      var s := Run(Initial(config, start), ops);
      OwnerIs(a.metric);
      AnomalyIff(config, start, ops, later, a);
      NetworkRxAnswers(s, Alert(a.metric, a.severity, a.currentValue));
    }
  }

  /** With the defaults CPU and memory are critical from 95 and GPU temperature from 90; disk only ever warns. */
  lemma DefaultSeverities(start: nat, ops: seq<Op>, later: seq<nat>, a: Anomaly)
    requires IsRun(ops) && IsClock(later) && Forward(ops + [Detect(later)])
    requires a in Detected(Run(Initial(DEFAULT_CONFIG, start), ops), later).anomalies
    ensures a.metric == Cpu || a.metric == Memory ==>
      a.currentValue >= 85.0 && (a.severity == Critical <==> a.currentValue >= 95.0)
      && (a.severity == Warning <==> a.currentValue < 95.0)
    ensures a.metric == GpuTemp ==>
      a.currentValue >= 80.0 && (a.severity == Critical <==> a.currentValue >= 90.0)
      && (a.severity == Warning <==> a.currentValue < 90.0)
    ensures a.metric == Disk ==> a.currentValue >= 90.0 && a.severity == Warning
  {
    var c := DEFAULT_CONFIG;
    CpuReported(c, start, ops, later, a);
    MemoryReported(c, start, ops, later, a);
    GpuTempReported(c, start, ops, later, a);
    DiskReported(c, start, ops, later, a);
    hide Run, Log, Rested, Detected;
  }

  // ---- gaps ----

  /** The number of samples a check looks at. */
  predicate Short(have: nat, need: nat, reason: CheckGap) {
    have < need && reason == if have == 0 then NoSamples else InsufficientSamples(have, need)
  }

  /**
   * The report lists exactly these checks with exactly these reasons: too few samples in the check's window, none or
   * some, and for GPU temperature a sensor that was never read or no longer is.
   */
  lemma GapReasons(s: State, reason: CheckGap)
    ensures NotChecked(CpuThresholds, reason) in Gaps(s) <==> s.cpu == [] && reason == NoSamples
    ensures NotChecked(MemoryThresholds, reason) in Gaps(s) <==> s.memory == [] && reason == NoSamples
    ensures NotChecked(DiskUsage, reason) in Gaps(s) <==> s.disk == [] && reason == NoSamples
    ensures NotChecked(CpuSpikeAndTrend, reason) in Gaps(s) <==> Short(|s.cpu|, s.config.minSamples, reason)
    ensures NotChecked(NetworkSpike, reason) in Gaps(s) <==> Short(|s.rx|, s.config.minSamples, reason)
    ensures NotChecked(GpuTempThresholds, reason) in Gaps(s) <==>
      s.gpuTempLatest.None? && reason == if s.gpuTemp == [] then NoSamples else MetricUnavailable
  {
    GapsListed(s, |CHECKS|);
    assert CHECKS[..|CHECKS|] == CHECKS;
    forall c
      ensures c in CHECKS
    {
      var k := match c case CpuThresholds => 0 case CpuSpikeAndTrend => 1 case MemoryThresholds => 2
                       case GpuTempThresholds => 3 case DiskUsage => 4 case NetworkSpike => 5;
      assert CHECKS[k] == c;
    }
  }

  /** The place of a check in the report. */
  function Place(check: Check): nat {
    match check
    case CpuThresholds => 0
    case CpuSpikeAndTrend => 1
    case MemoryThresholds => 2
    case GpuTempThresholds => 3
    case DiskUsage => 4
    case NetworkSpike => 5
  }

  /** Each check is noted at most once, in order, and only the first k are. */
  predicate InOrder(gaps: seq<NotChecked>, k: nat) {
    && (forall i :: 0 <= i < |gaps| ==> Place(gaps[i].check) < k)
    && forall i, j :: 0 <= i < j < |gaps| ==> Place(gaps[i].check) < Place(gaps[j].check)
  }

  lemma NoteInOrder(gaps: seq<NotChecked>, check: Check, reason: Option<CheckGap>)
    requires InOrder(gaps, Place(check))
    ensures InOrder(Note(gaps, check, reason), Place(check) + 1)
  {
  }

  /** Gaps are listed in the order of the checks, each at most once. */
  lemma {:induction false} GapsInOrder(s: State, k: nat)
    requires k <= |CHECKS|
    ensures InOrder(GapsUpTo(s, k), k)
  {
    if k == 0 {
    } else {
      GapsInOrder(s, k - 1);
      assert Place(CHECKS[k - 1]) == k - 1;
      NoteInOrder(GapsUpTo(s, k - 1), CHECKS[k - 1], GapOf(s, CHECKS[k - 1]));
    }
  }
}
