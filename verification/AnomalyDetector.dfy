/**
 * AnomalyDetector of src/anomaly.rs: seven windows, the latest GPU readings and the cooldown table, updated in place.
 */
module AnomalyDetectors {
  import opened AnomalyRules
  import opened MetricWindows
  import opened Text
  import AnomalyRuns
  import Recent
  import Statistics

  class AnomalyDetector {
    const config: Config
    const start: nat
    const cpuWindow: MetricWindow
    const memoryWindow: MetricWindow
    const gpuTempWindow: MetricWindow
    const gpuUtilWindow: MetricWindow
    const diskUsageWindow: MetricWindow
    const networkRxWindow: MetricWindow
    const networkTxWindow: MetricWindow
    var gpuTempLatest: Option<real>
    var gpuUtilLatest: Option<real>
    var lastAlerts: map<Key, nat>

    ghost function Windows(): set<MetricWindow> {
      {cpuWindow, memoryWindow, gpuTempWindow, gpuUtilWindow, diskUsageWindow, networkRxWindow, networkTxWindow}
    }

    ghost predicate Distinct() {
      && cpuWindow !in {memoryWindow, gpuTempWindow, gpuUtilWindow, diskUsageWindow, networkRxWindow, networkTxWindow}
      && memoryWindow !in {gpuTempWindow, gpuUtilWindow, diskUsageWindow, networkRxWindow, networkTxWindow}
      && gpuTempWindow !in {gpuUtilWindow, diskUsageWindow, networkRxWindow, networkTxWindow}
      && gpuUtilWindow !in {diskUsageWindow, networkRxWindow, networkTxWindow}
      && diskUsageWindow !in {networkRxWindow, networkTxWindow}
      && networkRxWindow != networkTxWindow
    }

    ghost predicate Valid()
      reads Windows()
    {
      Distinct() && forall w :: w in Windows() ==> w.Valid() && w.maxSize == config.windowSize
    }

    /** The samples held, as a value of the rule engine with an empty cooldown table. */
    ghost function Samples(): State
      reads this`gpuTempLatest, this`gpuUtilLatest, Windows()
    {
      State(config, cpuWindow.values, memoryWindow.values, gpuTempWindow.values, gpuUtilWindow.values,
            diskUsageWindow.values, networkRxWindow.values, networkTxWindow.values,
            gpuTempLatest, gpuUtilLatest, start, map[])
    }

    /** The detector as a value of the rule engine. */
    ghost function Snapshot(): State
      reads this, Windows()
    {
      Samples().(lastAlerts := lastAlerts)
    }

    /** Valid, with the samples of s. */
    ghost predicate Holds(s: State)
      reads this`gpuTempLatest, this`gpuUtilLatest, Windows()
    {
      Valid() && s == Samples().(lastAlerts := s.lastAlerts)
    }

    /** Alerts leave the samples alone. */
    twostate lemma StillHolds(s: State)
      requires old(Holds(s)) && unchanged(this`gpuTempLatest, this`gpuUtilLatest) && unchanged(Windows())
      ensures Holds(s)
    {
      assert forall w :: w in Windows() ==> w.Valid() == old(w.Valid());
    }

    lemma HeldSnapshot(s: State)
      requires Holds(s)
      ensures Valid() && Snapshot() == s.(lastAlerts := lastAlerts)
    {
    }

    constructor (config: Config, now: nat)
      ensures Valid() && fresh(Windows())
      ensures Snapshot() == Initial(config, now)
    {
      hide MetricWindow.Valid;
      this.config := config;
      start := now;
      cpuWindow := new MetricWindow(config.windowSize);
      memoryWindow := new MetricWindow(config.windowSize);
      gpuTempWindow := new MetricWindow(config.windowSize);
      gpuUtilWindow := new MetricWindow(config.windowSize);
      diskUsageWindow := new MetricWindow(config.windowSize);
      networkRxWindow := new MetricWindow(config.windowSize);
      networkTxWindow := new MetricWindow(config.windowSize);
      gpuTempLatest, gpuUtilLatest := None, None;
      lastAlerts := map[];
    }

    method RecordCpu(percent: real)
      requires Valid()
      modifies cpuWindow
      ensures Valid() && Snapshot() == AnomalyRuns.Step(old(Snapshot()), AnomalyRuns.RecordCpu(percent))
    {
      hide After, Statistics.Sum, Statistics.SumSq, Recent.LastN;
      cpuWindow.Push(percent);
    }

    method RecordMemory(percent: real)
      requires Valid()
      modifies memoryWindow
      ensures Valid() && Snapshot() == AnomalyRuns.Step(old(Snapshot()), AnomalyRuns.RecordMemory(percent))
    {
      hide After, Statistics.Sum, Statistics.SumSq, Recent.LastN;
      memoryWindow.Push(percent);
    }

    /** A reading that failed clears the latest value and adds nothing to the window. */
    method RecordGpuTemp(celsius: Option<real>)
      requires Valid()
      modifies this`gpuTempLatest, gpuTempWindow
      ensures Valid() && Snapshot() == AnomalyRuns.Step(old(Snapshot()), AnomalyRuns.RecordGpuTemp(celsius))
    {
      hide After, Statistics.Sum, Statistics.SumSq, Recent.LastN;
      gpuTempLatest := celsius;
      if celsius.Some? {
        gpuTempWindow.Push(celsius.value);
      }
    }

    method RecordGpuUtil(percent: Option<real>)
      requires Valid()
      modifies this`gpuUtilLatest, gpuUtilWindow
      ensures Valid() && Snapshot() == AnomalyRuns.Step(old(Snapshot()), AnomalyRuns.RecordGpuUtil(percent))
    {
      hide After, Statistics.Sum, Statistics.SumSq, Recent.LastN;
      gpuUtilLatest := percent;
      if percent.Some? {
        gpuUtilWindow.Push(percent.value);
      }
    }

    method RecordDiskUsage(percent: real)
      requires Valid()
      modifies diskUsageWindow
      ensures Valid() && Snapshot() == AnomalyRuns.Step(old(Snapshot()), AnomalyRuns.RecordDisk(percent))
    {
      hide After, Statistics.Sum, Statistics.SumSq, Recent.LastN;
      diskUsageWindow.Push(percent);
    }

    method RecordNetworkRx(bytesPerSec: real)
      requires Valid()
      modifies networkRxWindow
      ensures Valid() && Snapshot() == AnomalyRuns.Step(old(Snapshot()), AnomalyRuns.RecordRx(bytesPerSec))
    {
      hide After, Statistics.Sum, Statistics.SumSq, Recent.LastN;
      networkRxWindow.Push(bytesPerSec);
    }

    method RecordNetworkTx(bytesPerSec: real)
      requires Valid()
      modifies networkTxWindow
      ensures Valid() && Snapshot() == AnomalyRuns.Step(old(Snapshot()), AnomalyRuns.RecordTx(bytesPerSec))
    {
      hide After, Statistics.Sum, Statistics.SumSq, Recent.LastN;
      networkTxWindow.Push(bytesPerSec);
    }

    /** One detection is one step of the value model and reports exactly what that step raises. */
    method Detect(clock: seq<nat>) returns (report: Report)
      requires Valid() && IsClock(clock)
      modifies this`lastAlerts
      ensures Valid() && Snapshot() == AnomalyRuns.Step(old(Snapshot()), AnomalyRuns.Detect(clock))
      ensures report == Detected(old(Snapshot()), clock)
    {
      var notChecked := CheckGaps();
      var anomalies := FindAnomalies(clock);
      report := Report(anomalies, notChecked);
    }

    method CheckGaps() returns (gaps: seq<NotChecked>)
      requires Valid()
      ensures gaps == Gaps(Snapshot())
    {
      var need := config.minSamples;
      var gpuTempGap := match gpuTempLatest
        case Some(_) => None
        case None => if gpuTempWindow.Len() == 0 then Some(NoSamples) else Some(MetricUnavailable);
      hide Statistics.Sum, Statistics.SumSq, Recent.LastN;
      ghost var s := Snapshot();
      gaps := [];
      assert gaps == GapsUpTo(s, 0);
      hide GapsUpTo, Note;
      gaps := Note(gaps, CpuThresholds, SampleGap(cpuWindow.Len(), 1));
      GapsNext(s, 0);
      gaps := Note(gaps, CpuSpikeAndTrend, SampleGap(cpuWindow.Len(), need));
      GapsNext(s, 1);
      gaps := Note(gaps, MemoryThresholds, SampleGap(memoryWindow.Len(), 1));
      GapsNext(s, 2);
      gaps := Note(gaps, GpuTempThresholds, gpuTempGap);
      GapsNext(s, 3);
      gaps := Note(gaps, DiskUsage, SampleGap(diskUsageWindow.Len(), 1));
      GapsNext(s, 4);
      gaps := Note(gaps, NetworkSpike, SampleGap(networkRxWindow.Len(), need));
      GapsNext(s, 5);
    }

    /** The anomalies found so far and the cooldown table are those of `o`. */
    ghost predicate Tracks(o: Outcome, anomalies: seq<Anomaly>)
      reads this
    {
      lastAlerts == o.lastAlerts && anomalies == Anomalies(o.events)
    }

    method FindAnomalies(clock: seq<nat>) returns (anomalies: seq<Anomaly>)
      requires Valid() && IsClock(clock)
      modifies this`lastAlerts
      ensures Valid() && Snapshot() == old(Snapshot()).(lastAlerts := After(old(Snapshot()), clock, RULES).lastAlerts)
      ensures anomalies == Anomalies(After(old(Snapshot()), clock, RULES).events)
    {
      hide Next, Offer, Rule, Anomalies, Samples, Valid, Distinct, IsClock;
      ghost var s := Snapshot();
      assert Holds(s) && After(s, clock, 0) == Outcome(lastAlerts, []);
      hide After, Holds;
      anomalies := FindCpu([], clock, s, After(s, clock, 0));
      StillHolds(s);
      AfterNext(s, clock, 0);
      AfterNext(s, clock, 1);
      anomalies := FindMemory(anomalies, clock, s, After(s, clock, 2));
      StillHolds(s);
      AfterNext(s, clock, 2);
      anomalies := FindGpuTemp(anomalies, clock, s, After(s, clock, 3));
      StillHolds(s);
      AfterNext(s, clock, 3);
      anomalies := FindDisk(anomalies, clock, s, After(s, clock, 4));
      StillHolds(s);
      AfterNext(s, clock, 4);
      anomalies := FindNetwork(anomalies, clock, s, After(s, clock, 5));
      StillHolds(s);
      AfterNext(s, clock, 5);
      HeldSnapshot(s);
    }

    method FindCpu(found: seq<Anomaly>, clock: seq<nat>, ghost s: State, ghost o: Outcome)
      returns (anomalies: seq<Anomaly>)
      requires Holds(s) && IsClock(clock) && Tracks(o, found)
      modifies this`lastAlerts
      ensures Tracks(Next(Next(o, s, clock, 0), s, clock, 1), anomalies)
    {
      hide Statistics.Above, Statistics.Beyond, Statistics.Trend, Statistics.Variance, Statistics.Mean,
           Statistics.Sum, Statistics.SumSq, Recent.LastN;
      anomalies := found;
      var now := Elapsed(clock[0], start);
      if cpuWindow.Last().Some? {
        var cpu := cpuWindow.Last().value;
        if cpu >= config.cpuCritical {
          anomalies := MaybeAlert(anomalies, Cpu, Critical, cpu, now, Asked(clock, 0), Stamped(clock, 0));
        } else if cpu >= config.cpuWarning {
          anomalies := MaybeAlert(anomalies, Cpu, Warning, cpu, now, Asked(clock, 0), Stamped(clock, 0));
        } else if cpuWindow.Len() >= config.minSamples {
          if cpuWindow.ZBeyond(cpu, config.zScoreThreshold) {
            anomalies := MaybeAlert(anomalies, CpuSpike, Info, cpu, now, Asked(clock, 0), Stamped(clock, 0));
          }
        }
        StillHolds(s);
        anomalies := FindCpuTrend(anomalies, clock, cpu, s, Next(o, s, clock, 0));
      }
    }

    method FindCpuTrend(found: seq<Anomaly>, clock: seq<nat>, cpu: real, ghost s: State, ghost o: Outcome)
      returns (anomalies: seq<Anomaly>)
      requires Holds(s) && IsClock(clock) && Tracks(o, found) && cpuWindow.Last() == Some(cpu)
      modifies this`lastAlerts
      ensures Tracks(Next(o, s, clock, 1), anomalies)
    {
      hide Statistics.Trend, Statistics.Sum, Statistics.SumSq, Recent.LastN;
      anomalies := found;
      var trend := cpuWindow.Trend();
      if trend > 15.0 && cpuWindow.Len() >= config.minSamples {
        var now := Elapsed(clock[0], start);
        anomalies := MaybeAlert(anomalies, CpuTrend, Warning, cpu, now, Asked(clock, 1), Stamped(clock, 1));
      }
    }

    method FindMemory(found: seq<Anomaly>, clock: seq<nat>, ghost s: State, ghost o: Outcome)
      returns (anomalies: seq<Anomaly>)
      requires Holds(s) && IsClock(clock) && Tracks(o, found)
      modifies this`lastAlerts
      ensures Tracks(Next(o, s, clock, 2), anomalies)
    {
      anomalies := found;
      var now := Elapsed(clock[0], start);
      if memoryWindow.Last().Some? {
        var mem := memoryWindow.Last().value;
        if mem >= config.memoryCritical {
          anomalies := MaybeAlert(anomalies, Memory, Critical, mem, now, Asked(clock, 2), Stamped(clock, 2));
        } else if mem >= config.memoryWarning {
          anomalies := MaybeAlert(anomalies, Memory, Warning, mem, now, Asked(clock, 2), Stamped(clock, 2));
        }
      }
    }

    method FindGpuTemp(found: seq<Anomaly>, clock: seq<nat>, ghost s: State, ghost o: Outcome)
      returns (anomalies: seq<Anomaly>)
      requires Holds(s) && IsClock(clock) && Tracks(o, found)
      modifies this`lastAlerts
      ensures Tracks(Next(o, s, clock, 3), anomalies)
    {
      anomalies := found;
      var now := Elapsed(clock[0], start);
      if gpuTempLatest.Some? {
        var temp := gpuTempLatest.value;
        if temp >= config.gpuTempCritical {
          anomalies := MaybeAlert(anomalies, GpuTemp, Critical, temp, now, Asked(clock, 3), Stamped(clock, 3));
        } else if temp >= config.gpuTempWarning {
          anomalies := MaybeAlert(anomalies, GpuTemp, Warning, temp, now, Asked(clock, 3), Stamped(clock, 3));
        }
      }
    }

    method FindDisk(found: seq<Anomaly>, clock: seq<nat>, ghost s: State, ghost o: Outcome)
      returns (anomalies: seq<Anomaly>)
      requires Holds(s) && IsClock(clock) && Tracks(o, found)
      modifies this`lastAlerts
      ensures Tracks(Next(o, s, clock, 4), anomalies)
    {
      anomalies := found;
      var now := Elapsed(clock[0], start);
      if diskUsageWindow.Last().Some? {
        var disk := diskUsageWindow.Last().value;
        if disk >= config.diskWarning {
          anomalies := MaybeAlert(anomalies, Disk, Warning, disk, now, Asked(clock, 4), Stamped(clock, 4));
        }
      }
    }

    method FindNetwork(found: seq<Anomaly>, clock: seq<nat>, ghost s: State, ghost o: Outcome)
      returns (anomalies: seq<Anomaly>)
      requires Holds(s) && IsClock(clock) && Tracks(o, found)
      modifies this`lastAlerts
      ensures Tracks(Next(o, s, clock, 5), anomalies)
    {
      hide Statistics.Above, Statistics.Beyond, Statistics.Trend, Statistics.Variance, Statistics.Mean,
           Statistics.Sum, Statistics.SumSq, Recent.LastN;
      anomalies := found;
      var now := Elapsed(clock[0], start);
      if networkRxWindow.Len() >= config.minSamples {
        if networkRxWindow.Last().Some? {
          var rx := networkRxWindow.Last().value;
          if networkRxWindow.ZAbove(rx, config.zScoreThreshold * 1.5) {
            anomalies := MaybeAlert(anomalies, NetworkRx, Info, rx / 1000000.0, now,
                                    Asked(clock, 5), Stamped(clock, 5));
          }
        }
      }
    }

    /** Raise the alert and stamp its key, unless the key alerted less than the cooldown ago. */
    method MaybeAlert(anomalies: seq<Anomaly>, key: Key, severity: Severity, value: real, now: nat,
                      asked: nat, stamped: nat)
      returns (out: seq<Anomaly>)
      modifies this`lastAlerts
      ensures Ready(old(lastAlerts), key, asked, config.alertCooldown) ==>
        lastAlerts == old(lastAlerts)[key := stamped] && out == anomalies + [Anomaly(key, severity, value, now)]
      ensures !Ready(old(lastAlerts), key, asked, config.alertCooldown) ==>
        lastAlerts == old(lastAlerts) && out == anomalies
    {
      if key in lastAlerts {
        var last := lastAlerts[key];
        if Elapsed(asked, last) < config.alertCooldown {
          return anomalies;
        }
      }
      lastAlerts := lastAlerts[key := stamped];
      out := anomalies + [Anomaly(key, severity, value, now)];
    }
  }
}
