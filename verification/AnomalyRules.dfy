/** The rule engine of src/anomaly.rs on values: rule conditions, per-key cooldown, gap report and verdict. */
module AnomalyRules {
  import opened Recent
  import opened Reals
  import opened Statistics
  import opened Text

  /** Instants and durations count nanoseconds. */
  datatype Config = Config(
    windowSize: nat,
    zScoreThreshold: real,
    cpuWarning: real,
    cpuCritical: real,
    memoryWarning: real,
    memoryCritical: real,
    gpuTempWarning: real,
    gpuTempCritical: real,
    diskWarning: real,
    minSamples: nat,
    alertCooldown: nat)

  const DEFAULT_CONFIG: Config :=
    Config(60, 2.5, 85.0, 95.0, 85.0, 95.0, 80.0, 90.0, 90.0, 10, 60_000_000_000)

  datatype Severity = Info | Warning | Critical

  /** The keys an alert is filed and cooled down under. */
  datatype Key = Cpu | CpuSpike | CpuTrend | Memory | GpuTemp | Disk | NetworkRx

  datatype Alert = Alert(key: Key, severity: Severity, value: real)

  datatype Anomaly = Anomaly(metric: Key, severity: Severity, currentValue: real, timestamp: nat)

  datatype Check = CpuThresholds | CpuSpikeAndTrend | MemoryThresholds | GpuTempThresholds | DiskUsage | NetworkSpike

  datatype CheckGap = NoSamples | InsufficientSamples(have: nat, need: nat) | MetricUnavailable

  datatype NotChecked = NotChecked(check: Check, reason: CheckGap)

  datatype Verdict = Findings | Clear | NotFullyChecked

  datatype Report = Report(anomalies: seq<Anomaly>, notChecked: seq<NotChecked>)

  /** Everything a detector holds. The windows are their contents. */
  datatype State = State(
    config: Config,
    cpu: seq<real>,
    memory: seq<real>,
    gpuTemp: seq<real>,
    gpuUtil: seq<real>,
    disk: seq<real>,
    rx: seq<real>,
    tx: seq<real>,
    gpuTempLatest: Option<real>,
    gpuUtilLatest: Option<real>,
    start: nat,
    lastAlerts: map<Key, nat>)

  function Initial(config: Config, start: nat): State {
    State(config, [], [], [], [], [], [], [], None, None, start, map[])
  }

  // ---- rules ----

  function Newest(s: seq<real>): real
    requires s != []
  {
    s[|s| - 1]
  }

  /** Two-level threshold rule under one key. */
  function Threshold(key: Key, value: real, critical: real, warning: real): Option<Alert> {
    if value >= critical then Some(Alert(key, Critical, value))
    else if value >= warning then Some(Alert(key, Warning, value))
    else None
  }

  function CpuRule(s: State): Option<Alert> {
    if s.cpu == [] then None
    else
      var cpu := Newest(s.cpu);
      var level := Threshold(Cpu, cpu, s.config.cpuCritical, s.config.cpuWarning);
      if level.Some? then level
      else if |s.cpu| >= s.config.minSamples && ZBeyond(s.cpu, cpu, s.config.zScoreThreshold) then
        Some(Alert(CpuSpike, Info, cpu))
      else None
  }

  function TrendRule(s: State): Option<Alert> {
    if s.cpu != [] && Trend(s.cpu) > 15.0 && |s.cpu| >= s.config.minSamples then
      Some(Alert(CpuTrend, Warning, Newest(s.cpu)))
    else None
  }

  function MemoryRule(s: State): Option<Alert> {
    if s.memory == [] then None
    else Threshold(Memory, Newest(s.memory), s.config.memoryCritical, s.config.memoryWarning)
  }

  function GpuRule(s: State): Option<Alert> {
    if s.gpuTempLatest.None? then None
    else Threshold(GpuTemp, s.gpuTempLatest.value, s.config.gpuTempCritical, s.config.gpuTempWarning)
  }

  function DiskRule(s: State): Option<Alert> {
    if s.disk != [] && Newest(s.disk) >= s.config.diskWarning then Some(Alert(Disk, Warning, Newest(s.disk)))
    else None
  }

  function NetworkRule(s: State): Option<Alert> {
    if |s.rx| >= s.config.minSamples && s.rx != []
       && ZAbove(s.rx, Newest(s.rx), s.config.zScoreThreshold * 1.5) then
      Some(Alert(NetworkRx, Info, Newest(s.rx) / 1000000.0))
    else None
  }

  const RULES: nat := 6

  /** The rules in the order they are evaluated. */
  function Rule(s: State, i: nat): Option<Alert> {
    match i
    case 0 => CpuRule(s)
    case 1 => TrendRule(s)
    case 2 => MemoryRule(s)
    case 3 => GpuRule(s)
    case 4 => DiskRule(s)
    case 5 => NetworkRule(s)
    case _ => None
  }

  // ---- cooldown ----

  /** Instant::elapsed, which saturates at zero. */
  function Elapsed(now: nat, last: nat): nat {
    if now < last then 0 else now - last
  }

  /** The key has never alerted, or did so at least the cooldown ago. */
  predicate Ready(last: map<Key, nat>, key: Key, asked: nat, cooldown: nat) {
    key in last ==> Elapsed(asked, last[key]) >= cooldown
  }

  /** One alert that was raised: what was reported, when the cooldown was tested and when the key was stamped. */
  datatype Event = Event(anomaly: Anomaly, asked: nat, stamped: nat)

  datatype Outcome = Outcome(lastAlerts: map<Key, nat>, events: seq<Event>)

  /**
   * The instants one detection reads: the report's timestamp, then for rule i the
   * cooldown test and the stamp.
   */
  predicate IsClock(clock: seq<nat>) {
    |clock| == 1 + 2 * RULES && forall i, j :: 0 <= i <= j < |clock| ==> clock[i] <= clock[j]
  }

  function Asked(clock: seq<nat>, i: nat): nat
    requires IsClock(clock) && i < RULES
  {
    clock[1 + 2 * i]
  }

  function Stamped(clock: seq<nat>, i: nat): (t: nat)
    requires IsClock(clock) && i < RULES
    ensures Asked(clock, i) <= t
  {
    clock[2 + 2 * i]
  }

  /** maybe_alert for one rule. */
  function Offer(o: Outcome, rule: Option<Alert>, cooldown: nat, timestamp: nat, asked: nat, stamped: nat): Outcome {
    if rule.None? || !Ready(o.lastAlerts, rule.value.key, asked, cooldown) then o
    else
      var a := rule.value;
      Outcome(o.lastAlerts[a.key := stamped],
              o.events + [Event(Anomaly(a.key, a.severity, a.value, timestamp), asked, stamped)])
  }

  /** What rule i of a detection does after outcome o. */
  function Next(o: Outcome, s: State, clock: seq<nat>, i: nat): Outcome
    requires IsClock(clock) && i < RULES
  {
    Offer(o, Rule(s, i), s.config.alertCooldown, Elapsed(clock[0], s.start), Asked(clock, i), Stamped(clock, i))
  }

  /** What the first k rules did. */
  function After(s: State, clock: seq<nat>, k: nat): Outcome
    requires IsClock(clock) && k <= RULES
  {
    if k == 0 then Outcome(s.lastAlerts, []) else Next(After(s, clock, k - 1), s, clock, k - 1)
  }

  lemma AfterNext(s: State, clock: seq<nat>, i: nat)
    requires IsClock(clock) && i < RULES
    ensures After(s, clock, i + 1) == Next(After(s, clock, i), s, clock, i)
  {
  }

  function Anomalies(events: seq<Event>): (r: seq<Anomaly>)
    ensures |r| == |events| && forall i :: 0 <= i < |r| ==> r[i] == events[i].anomaly
  {
    seq(|events|, i requires 0 <= i < |events| => events[i].anomaly)
  }

  // ---- gaps and verdict ----

  function SampleGap(have: nat, need: nat): Option<CheckGap> {
    if have >= need then None
    else if have == 0 then Some(NoSamples)
    else Some(InsufficientSamples(have, need))
  }

  function GapOf(s: State, check: Check): Option<CheckGap> {
    match check
    case CpuThresholds => SampleGap(|s.cpu|, 1)
    case CpuSpikeAndTrend => SampleGap(|s.cpu|, s.config.minSamples)
    case MemoryThresholds => SampleGap(|s.memory|, 1)
    case GpuTempThresholds =>
      if s.gpuTempLatest.Some? then None
      else if |s.gpuTemp| == 0 then Some(NoSamples)
      else Some(MetricUnavailable)
    case DiskUsage => SampleGap(|s.disk|, 1)
    case NetworkSpike => SampleGap(|s.rx|, s.config.minSamples)
  }

  const CHECKS: seq<Check> :=
    [CpuThresholds, CpuSpikeAndTrend, MemoryThresholds, GpuTempThresholds, DiskUsage, NetworkSpike]

  function Note(gaps: seq<NotChecked>, check: Check, reason: Option<CheckGap>): seq<NotChecked> {
    if reason.Some? then gaps + [NotChecked(check, reason.value)] else gaps
  }

  /** The gaps noted for the first k checks. */
  function GapsUpTo(s: State, k: nat): seq<NotChecked>
    requires k <= |CHECKS|
  {
    if k == 0 then [] else Note(GapsUpTo(s, k - 1), CHECKS[k - 1], GapOf(s, CHECKS[k - 1]))
  }

  lemma {:induction false} GapsListed(s: State, k: nat)
    requires k <= |CHECKS|
    ensures forall c, g :: NotChecked(c, g) in GapsUpTo(s, k) <==> (c in CHECKS[..k] && GapOf(s, c) == Some(g))
  {
    if k == 0 {
    } else {
      GapsListed(s, k - 1);
      assert CHECKS[..k] == CHECKS[..k - 1] + [CHECKS[k - 1]];
    }
  }

  lemma GapsNext(s: State, k: nat)
    requires k < |CHECKS|
    ensures GapsUpTo(s, k + 1) == Note(GapsUpTo(s, k), CHECKS[k], GapOf(s, CHECKS[k]))
  {
  }

  function Gaps(s: State): seq<NotChecked> {
    GapsUpTo(s, |CHECKS|)
  }

  function VerdictFor(hasFindings: bool, notChecked: seq<NotChecked>): Verdict {
    if hasFindings then Findings else if notChecked == [] then Clear else NotFullyChecked
  }

  function VerdictOf(r: Report): Verdict {
    VerdictFor(r.anomalies != [], r.notChecked)
  }

  function Detected(s: State, clock: seq<nat>): Report
    requires IsClock(clock)
  {
    Report(Anomalies(After(s, clock, RULES).events), Gaps(s))
  }

  // ---- one detection ----

  /** The rule that files under a key; no two rules share one. */
  function Owner(key: Key): (i: nat)
    ensures i < RULES
  {
    match key
    case Cpu => 0
    case CpuSpike => 0
    case CpuTrend => 1
    case Memory => 2
    case GpuTemp => 3
    case Disk => 4
    case NetworkRx => 5
  }

  lemma RuleOwnsKey(s: State, i: nat)
    ensures Rule(s, i).Some? ==> Owner(Rule(s, i).value.key) == i
  {
    hide ZBeyond, ZAbove, Trend;
  }

  /** Rule i holds and its key was out of cooldown when the detection began. */
  predicate Raises(s: State, clock: seq<nat>, i: nat)
    requires IsClock(clock) && i < RULES
  {
    Rule(s, i).Some? && Ready(s.lastAlerts, Rule(s, i).value.key, Asked(clock, i), s.config.alertCooldown)
  }

  function Raised(s: State, clock: seq<nat>, i: nat): Event
    requires IsClock(clock) && i < RULES && Raises(s, clock, i)
  {
    var a := Rule(s, i).value;
    Event(Anomaly(a.key, a.severity, a.value, Elapsed(clock[0], s.start)), Asked(clock, i), Stamped(clock, i))
  }

  /** Rules do not interfere: each is judged against the cooldowns from before the detection. */
  lemma {:induction false} AfterIs(s: State, clock: seq<nat>, k: nat)
    requires IsClock(clock) && k <= RULES
    ensures forall key :: Owner(key) >= k ==>
      (key in After(s, clock, k).lastAlerts <==> key in s.lastAlerts)
      && (key in s.lastAlerts ==> After(s, clock, k).lastAlerts[key] == s.lastAlerts[key])
    ensures forall e :: e in After(s, clock, k).events <==>
      exists i :: 0 <= i < k && Raises(s, clock, i) && e == Raised(s, clock, i)
    ensures forall m, n :: 0 <= m < n < |After(s, clock, k).events| ==>
      Owner(After(s, clock, k).events[m].anomaly.metric) < Owner(After(s, clock, k).events[n].anomaly.metric)
    ensures forall m :: 0 <= m < |After(s, clock, k).events| ==> Owner(After(s, clock, k).events[m].anomaly.metric) < k
  {
    if k == 0 {
    } else {
      AfterIs(s, clock, k - 1);
      RuleOwnsKey(s, k - 1);
      hide Rule;
      var before, o := After(s, clock, k - 1), After(s, clock, k);
      if Raises(s, clock, k - 1) {
        assert o.events == before.events + [Raised(s, clock, k - 1)];
      } else {
        assert o == before;
      }
    }
  }

  /** One detection never reports a key twice, whatever the cooldown. */
  lemma OneAlertPerKey(s: State, clock: seq<nat>, m: nat, n: nat)
    requires IsClock(clock)
    requires m < n < |Detected(s, clock).anomalies|
    ensures Detected(s, clock).anomalies[m].metric != Detected(s, clock).anomalies[n].metric
  {
    AfterIs(s, clock, RULES);
  }

  /** Findings, Clear and NotFullyChecked in terms of the rules, the cooldowns and the gaps. */
  lemma VerdictMeaning(s: State, clock: seq<nat>)
    requires IsClock(clock)
    ensures VerdictOf(Detected(s, clock)) == Findings <==> exists i :: 0 <= i < RULES && Raises(s, clock, i)
    ensures VerdictOf(Detected(s, clock)) == Clear <==>
      (forall c :: !Listed(s, c)) && forall i :: 0 <= i < RULES ==> !Raises(s, clock, i)
  {
    AfterIs(s, clock, RULES);
    hide Rule;
    var events := After(s, clock, RULES).events;
    if events != [] {
      assert events[0] in events;
    }
    if i :| 0 <= i < RULES && Raises(s, clock, i) {
      assert Raised(s, clock, i) in events;
    }
    NoGapsMeaning(s);
  }

  /** The report lists the check as not run. */
  predicate Listed(s: State, check: Check) {
    exists n :: n in Gaps(s) && n.check == check
  }

  lemma ListedIff(s: State, check: Check)
    ensures Listed(s, check) <==> GapOf(s, check).Some?
  {
    GapsListed(s, |CHECKS|);
    assert CHECKS[..|CHECKS|] == CHECKS;
    var k := match check case CpuThresholds => 0 case CpuSpikeAndTrend => 1 case MemoryThresholds => 2
                         case GpuTempThresholds => 3 case DiskUsage => 4 case NetworkSpike => 5;
    assert CHECKS[k] == check;
    if n :| n in Gaps(s) && n.check == check {
      assert NotChecked(n.check, n.reason) in Gaps(s);
    }
    if GapOf(s, check).Some? {
      assert NotChecked(check, GapOf(s, check).value) in Gaps(s);
    }
  }

  lemma NoGapsMeaning(s: State)
    ensures Gaps(s) == [] <==> forall c :: !Listed(s, c)
  {
    if Gaps(s) != [] {
      assert Gaps(s)[0] in Gaps(s);
      assert Listed(s, Gaps(s)[0].check);
    }
  }
}
