/**
 * Runs of the anomaly detector: records and detections in any order, the alerts they raise and the cooldown between
 * them.
 */
module AnomalyRuns {
  import opened AnomalyRules
  import opened Recent
  import opened Reals
  import opened Statistics
  import opened Text

  // ---- steps and runs ----

  datatype Op =
    | RecordCpu(percent: real)
    | RecordMemory(percent: real)
    | RecordGpuTemp(celsius: Option<real>)
    | RecordGpuUtil(util: Option<real>)
    | RecordDisk(percent: real)
    | RecordRx(rate: real)
    | RecordTx(rate: real)
    | Detect(clock: seq<nat>)

  function Push(s: State, window: seq<real>, value: real): seq<real> {
    Pushed(window, s.config.windowSize, value)
  }

  function PushKnown(s: State, window: seq<real>, value: Option<real>): seq<real> {
    if value.Some? then Push(s, window, value.value) else window
  }

  predicate IsOp(op: Op) {
    op.Detect? ==> IsClock(op.clock)
  }

  function Step(s: State, op: Op): State
    requires IsOp(op)
  {
    match op
    case RecordCpu(v) => s.(cpu := Push(s, s.cpu, v))
    case RecordMemory(v) => s.(memory := Push(s, s.memory, v))
    case RecordGpuTemp(v) => s.(gpuTempLatest := v, gpuTemp := PushKnown(s, s.gpuTemp, v))
    case RecordGpuUtil(v) => s.(gpuUtilLatest := v, gpuUtil := PushKnown(s, s.gpuUtil, v))
    case RecordDisk(v) => s.(disk := Push(s, s.disk, v))
    case RecordRx(v) => s.(rx := Push(s, s.rx, v))
    case RecordTx(v) => s.(tx := Push(s, s.tx, v))
    case Detect(clock) => s.(lastAlerts := After(s, clock, RULES).lastAlerts)
  }

  function EventsOf(s: State, op: Op): seq<Event>
    requires IsOp(op)
  {
    if op.Detect? then After(s, op.clock, RULES).events else []
  }

  predicate IsRun(ops: seq<Op>) {
    forall i :: 0 <= i < |ops| ==> IsOp(ops[i])
  }

  function Run(s: State, ops: seq<Op>): State
    requires IsRun(ops)
  {
    if ops == [] then s else Step(Run(s, ops[..|ops| - 1]), ops[|ops| - 1])
  }

  /** Every alert a run raised, in order. */
  function Log(s: State, ops: seq<Op>): seq<Event>
    requires IsRun(ops)
  {
    if ops == [] then []
    else
      var front := ops[..|ops| - 1];
      Log(s, front) + EventsOf(Run(s, front), ops[|ops| - 1])
  }

  /** The clock never goes back: each detection starts no earlier than the previous one ended. */
  predicate Forward(ops: seq<Op>)
    requires IsRun(ops)
  {
    forall i, j :: 0 <= i < j < |ops| && ops[i].Detect? && ops[j].Detect? ==>
      ops[i].clock[2 * RULES] <= ops[j].clock[0]
  }

  /** Alerts under one key are stamped at least the cooldown before the next one of that key is tested. */
  predicate Spaced(events: seq<Event>, cooldown: nat) {
    forall i, j :: 0 <= i < j < |events| && events[i].anomaly.metric == events[j].anomaly.metric ==>
      events[i].stamped + cooldown <= events[j].asked <= events[j].stamped
  }

  /** The event is an alert under this key with this stamp. */
  predicate IsStamp(e: Event, key: Key, t: nat) {
    e.anomaly.metric == key && e.stamped == t
  }

  /** Every alert so far is remembered by a stamp at least as new. */
  predicate Remembers(last: map<Key, nat>, events: seq<Event>) {
    forall i :: 0 <= i < |events| ==>
      var key := events[i].anomaly.metric;
      key in last && events[i].stamped <= last[key]
  }

  /** Every entry of the cooldown table is the stamp of an alert that was raised; with Remembers, of the newest one. */
  predicate FromLog(last: map<Key, nat>, events: seq<Event>) {
    forall key :: key in last ==> exists i :: 0 <= i < |events| && IsStamp(events[i], key, last[key])
  }

  predicate NotAfter(last: map<Key, nat>, t: nat) {
    forall key :: key in last ==> last[key] <= t
  }

  lemma OfferKeeps(prior: seq<Event>, o: Outcome, rule: Option<Alert>, cooldown: nat, ts: nat,
                   asked: nat, stamped: nat)
    requires asked <= stamped
    requires Spaced(prior + o.events, cooldown) && Remembers(o.lastAlerts, prior + o.events)
    requires NotAfter(o.lastAlerts, asked)
    ensures var p := Offer(o, rule, cooldown, ts, asked, stamped);
      Spaced(prior + p.events, cooldown) && Remembers(p.lastAlerts, prior + p.events) && NotAfter(p.lastAlerts, stamped)
  {
    var p := Offer(o, rule, cooldown, ts, asked, stamped);
    var before, after := prior + o.events, prior + p.events;
    if p != o {
      assert after == before + [p.events[|o.events|]];
    }
  }

  lemma OfferStays(prior: seq<Event>, o: Outcome, rule: Option<Alert>, cooldown: nat, ts: nat,
                   asked: nat, stamped: nat)
    requires FromLog(o.lastAlerts, prior + o.events)
    ensures var p := Offer(o, rule, cooldown, ts, asked, stamped); FromLog(p.lastAlerts, prior + p.events)
  {
    var p := Offer(o, rule, cooldown, ts, asked, stamped);
    if p != o {
      var before, after := prior + o.events, prior + p.events;
      assert after == before + [p.events[|o.events|]];
      forall key | key in p.lastAlerts
        ensures exists i :: 0 <= i < |after| && IsStamp(after[i], key, p.lastAlerts[key])
      {
        if key == rule.value.key {
          assert IsStamp(after[|before|], key, stamped);
        } else {
          var i :| 0 <= i < |before| && IsStamp(before[i], key, o.lastAlerts[key]);
          assert after[i] == before[i];
        }
      }
    }
  }

  lemma {:induction false} AfterKeeps(prior: seq<Event>, s: State, clock: seq<nat>, k: nat)
    requires IsClock(clock) && k <= RULES
    requires Spaced(prior, s.config.alertCooldown) && Remembers(s.lastAlerts, prior)
    requires NotAfter(s.lastAlerts, clock[0]) && FromLog(s.lastAlerts, prior)
    ensures var o := After(s, clock, k);
      Spaced(prior + o.events, s.config.alertCooldown) && Remembers(o.lastAlerts, prior + o.events)
      && NotAfter(o.lastAlerts, clock[2 * k]) && FromLog(o.lastAlerts, prior + o.events)
  {
    hide Rule;
    if k == 0 {
      assert prior + [] == prior;
    } else {
      AfterKeeps(prior, s, clock, k - 1);
      hide Spaced, Remembers, NotAfter, FromLog, Offer;
      var o := After(s, clock, k - 1);
      assert After(s, clock, k) == Next(o, s, clock, k - 1);
      var ts, asked, stamped := Elapsed(clock[0], s.start), Asked(clock, k - 1), Stamped(clock, k - 1);
      OfferKeeps(prior, o, Rule(s, k - 1), s.config.alertCooldown, ts, asked, stamped);
      OfferStays(prior, o, Rule(s, k - 1), s.config.alertCooldown, ts, asked, stamped);
    }
  }

  /** The last instant read by a run. */
  function LastInstant(ops: seq<Op>): nat
    requires IsRun(ops)
  {
    if ops == [] then 0
    else
      var op := ops[|ops| - 1];
      if op.Detect? then op.clock[2 * RULES] else LastInstant(ops[..|ops| - 1])
  }

  lemma {:induction false} LastInstantBefore(ops: seq<Op>, op: Op)
    requires IsRun(ops) && op.Detect? && IsOp(op) && Forward(ops + [op])
    ensures LastInstant(ops) <= op.clock[0]
  {
    if ops == [] {
    } else {
      var n := |ops| - 1;
      if ops[n].Detect? {
        assert (ops + [op])[n] == ops[n] && (ops + [op])[n + 1] == op;
      } else {
        var front := ops[..n];
        assert forall i :: 0 <= i < n ==> (front + [op])[i] == (ops + [op])[i];
        assert (front + [op])[n] == (ops + [op])[n + 1];
        LastInstantBefore(front, op);
      }
    }
  }

  /**
   * What holds along a run: alerts are spaced, the cooldown table holds exactly the newest stamp of every key alerted
   * so far, and nothing is stamped in the future.
   */
  predicate Kept(config: Config, s: State, events: seq<Event>, last: nat) {
    && s.config == config
    && Spaced(events, config.alertCooldown) && NotAfter(s.lastAlerts, last)
    && Remembers(s.lastAlerts, events) && FromLog(s.lastAlerts, events)
  }

  lemma RecordKeeps(config: Config, s: State, events: seq<Event>, last: nat, op: Op)
    requires IsOp(op) && !op.Detect? && Kept(config, s, events, last)
    ensures Kept(config, Step(s, op), events + EventsOf(s, op), last)
  {
    assert events + [] == events;
    hide Spaced, Remembers, NotAfter, FromLog;
  }

  lemma DetectKeeps(config: Config, s: State, events: seq<Event>, last: nat, clock: seq<nat>)
    requires IsClock(clock) && last <= clock[0] && Kept(config, s, events, last)
    ensures Kept(config, Step(s, Detect(clock)), events + EventsOf(s, Detect(clock)), clock[2 * RULES])
  {
    assert NotAfter(s.lastAlerts, clock[0]);
    AfterKeeps(events, s, clock, RULES);
    hide Spaced, Remembers, NotAfter, FromLog, After;
  }

  lemma {:induction false} RunKeeps(config: Config, start: nat, ops: seq<Op>)
    requires IsRun(ops) && Forward(ops)
    ensures Kept(config, Run(Initial(config, start), ops), Log(Initial(config, start), ops), LastInstant(ops))
  {
    if ops == [] {
    } else {
      var front, op := ops[..|ops| - 1], ops[|ops| - 1];
      RunKeeps(config, start, front);
      var s, log := Run(Initial(config, start), front), Log(Initial(config, start), front);
      hide Kept, Step, EventsOf;
      if op.Detect? {
        assert front + [op] == ops;
        LastInstantBefore(front, op);
        DetectKeeps(config, s, log, LastInstant(front), op.clock);
      } else {
        RecordKeeps(config, s, log, LastInstant(front), op);
      }
    }
  }

  /** Over every run of records and detections, two alerts under one key are at least the cooldown apart. */
  lemma AlertsAreSpaced(config: Config, start: nat, ops: seq<Op>, i: nat, j: nat)
    requires IsRun(ops) && Forward(ops)
    requires i < j < |Log(Initial(config, start), ops)|
    ensures var log := Log(Initial(config, start), ops);
      log[i].anomaly.metric == log[j].anomaly.metric ==> log[i].stamped + config.alertCooldown <= log[j].stamped
  {
    RunKeeps(config, start, ops);
  }

  /** What is recorded. */
  datatype Metric = CpuPercent | MemoryPercent | GpuCelsius | GpuPercent | DiskPercent | ReceiveRate | TransmitRate

  /** The readings one operation gives of a metric: at most one. */
  function Reading(op: Op, m: Metric): seq<real> {
    match op
    case RecordCpu(v) => if m == CpuPercent then [v] else []
    case RecordMemory(v) => if m == MemoryPercent then [v] else []
    case RecordGpuTemp(v) => if m == GpuCelsius && v.Some? then [v.value] else []
    case RecordGpuUtil(v) => if m == GpuPercent && v.Some? then [v.value] else []
    case RecordDisk(v) => if m == DiskPercent then [v] else []
    case RecordRx(v) => if m == ReceiveRate then [v] else []
    case RecordTx(v) => if m == TransmitRate then [v] else []
    case Detect(_) => []
  }

  /** The readings of a metric along a run, in order. */
  function Recorded(ops: seq<Op>, m: Metric): seq<real> {
    if ops == [] then [] else Recorded(ops[..|ops| - 1], m) + Reading(ops[|ops| - 1], m)
  }

  /** The newest readings of a metric that a window can hold. */
  function Held(config: Config, ops: seq<Op>, m: Metric): seq<real> {
    LastN(Recorded(ops, m), Capacity(config.windowSize))
  }

  /** A window after an operation: what it held, with the operation's reading of its metric pushed, if there is one. */
  predicate Takes(config: Config, before: seq<real>, after: seq<real>, op: Op, m: Metric) {
    var r := Reading(op, m);
    after == if r == [] then before else Pushed(before, config.windowSize, r[0])
  }

  lemma HeldTakes(config: Config, ops: seq<Op>, op: Op, m: Metric, after: seq<real>)
    requires Takes(config, Held(config, ops, m), after, op, m)
    ensures after == Held(config, ops + [op], m)
  {
    assert (ops + [op])[..|ops|] == ops;
    var r := Reading(op, m);
    if r == [] {
      assert Recorded(ops, m) + r == Recorded(ops, m);
    } else {
      PushKeepsNewest(Recorded(ops, m), config.windowSize, r[0]);
    }
  }

  lemma StepTakes(s: State, op: Op)
    requires IsOp(op)
    ensures var t := Step(s, op);
      && t.config == s.config && t.start == s.start
      && Takes(s.config, s.cpu, t.cpu, op, CpuPercent) && Takes(s.config, s.memory, t.memory, op, MemoryPercent)
      && Takes(s.config, s.gpuTemp, t.gpuTemp, op, GpuCelsius) && Takes(s.config, s.gpuUtil, t.gpuUtil, op, GpuPercent)
      && Takes(s.config, s.disk, t.disk, op, DiskPercent)
      && Takes(s.config, s.rx, t.rx, op, ReceiveRate) && Takes(s.config, s.tx, t.tx, op, TransmitRate)
  {
    hide After;
  }

  /** Every window is the newest max(1, window_size) readings recorded of its metric, in order. */
  predicate WindowsHold(config: Config, start: nat, s: State, ops: seq<Op>) {
    && s.config == config && s.start == start
    && s.cpu == Held(config, ops, CpuPercent) && s.memory == Held(config, ops, MemoryPercent)
    && s.gpuTemp == Held(config, ops, GpuCelsius) && s.gpuUtil == Held(config, ops, GpuPercent)
    && s.disk == Held(config, ops, DiskPercent)
    && s.rx == Held(config, ops, ReceiveRate) && s.tx == Held(config, ops, TransmitRate)
  }

  lemma StepHolds(config: Config, start: nat, s: State, ops: seq<Op>, op: Op)
    requires IsOp(op) && WindowsHold(config, start, s, ops)
    ensures WindowsHold(config, start, Step(s, op), ops + [op])
  {
    StepTakes(s, op);
    hide Held, Takes, Step, IsOp;
    var t := Step(s, op);
    HeldTakes(config, ops, op, CpuPercent, t.cpu);
    HeldTakes(config, ops, op, MemoryPercent, t.memory);
    HeldTakes(config, ops, op, GpuCelsius, t.gpuTemp);
    HeldTakes(config, ops, op, GpuPercent, t.gpuUtil);
    HeldTakes(config, ops, op, DiskPercent, t.disk);
    HeldTakes(config, ops, op, ReceiveRate, t.rx);
    HeldTakes(config, ops, op, TransmitRate, t.tx);
  }

  /** After any run the windows are the newest readings recorded. */
  lemma {:induction false} WindowsAre(config: Config, start: nat, ops: seq<Op>)
    requires IsRun(ops)
    ensures WindowsHold(config, start, Run(Initial(config, start), ops), ops)
  {
    if ops == [] {
    } else {
      var front, op := ops[..|ops| - 1], ops[|ops| - 1];
      WindowsAre(config, start, front);
      hide WindowsHold, Step;
      StepHolds(config, start, Run(Initial(config, start), front), front, op);
      assert front + [op] == ops;
    }
  }

  lemma ReceiveWindowIs(config: Config, start: nat, ops: seq<Op>)
    requires IsRun(ops)
    ensures var s := Run(Initial(config, start), ops);
      s.config == config && s.rx == LastN(Recorded(ops, ReceiveRate), Capacity(config.windowSize))
  {
    WindowsAre(config, start, ops);
    hide Run, Recorded;
  }

  /** What an operation says of a GPU metric, an unread sensor included. */
  function GpuReport(op: Op, m: Metric): seq<Option<real>> {
    if op.RecordGpuTemp? && m == GpuCelsius then [op.celsius]
    else if op.RecordGpuUtil? && m == GpuPercent then [op.util]
    else []
  }

  function GpuReports(ops: seq<Op>, m: Metric): seq<Option<real>> {
    if ops == [] then [] else GpuReports(ops[..|ops| - 1], m) + GpuReport(ops[|ops| - 1], m)
  }

  function LastReport(reports: seq<Option<real>>): Option<real> {
    if reports == [] then None else reports[|reports| - 1]
  }

  lemma StepReports(s: State, op: Op)
    requires IsOp(op)
    ensures var t, temp, util := Step(s, op), GpuReport(op, GpuCelsius), GpuReport(op, GpuPercent);
      && t.gpuTempLatest == (if temp == [] then s.gpuTempLatest else temp[0])
      && t.gpuUtilLatest == if util == [] then s.gpuUtilLatest else util[0]
  {
    hide After;
  }

  lemma ReportsNext(ops: seq<Op>, m: Metric)
    requires ops != []
    ensures var front, report := GpuReports(ops[..|ops| - 1], m), GpuReport(ops[|ops| - 1], m);
      LastReport(GpuReports(ops, m)) == if report == [] then LastReport(front) else report[0]
  {
    assert GpuReports(ops[..|ops| - 1], m) + [] == GpuReports(ops[..|ops| - 1], m);
  }

  /** The GPU readings judged are what the last records said, and none once a sensor could not be read. */
  lemma {:induction false} LatestGpuIs(config: Config, start: nat, ops: seq<Op>)
    requires IsRun(ops)
    ensures var s := Run(Initial(config, start), ops);
      && s.gpuTempLatest == LastReport(GpuReports(ops, GpuCelsius))
      && s.gpuUtilLatest == LastReport(GpuReports(ops, GpuPercent))
  {
    if ops == [] {
    } else {
      var n := |ops| - 1;
      LatestGpuIs(config, start, ops[..n]);
      StepReports(Run(Initial(config, start), ops[..n]), ops[n]);
      ReportsNext(ops, GpuCelsius);
      ReportsNext(ops, GpuPercent);
      hide Step, GpuReports, GpuReport, LastReport;
    }
  }

  /** No alert of the key was stamped within the cooldown before this instant. */
  predicate Rested(events: seq<Event>, key: Key, cooldown: nat, asked: nat) {
    forall i :: 0 <= i < |events| && events[i].anomaly.metric == key ==> events[i].stamped + cooldown <= asked
  }

  lemma ReadyIffRested(last: map<Key, nat>, events: seq<Event>, key: Key, cooldown: nat, asked: nat)
    requires Remembers(last, events) && FromLog(last, events) && NotAfter(last, asked)
    ensures Ready(last, key, asked, cooldown) <==> Rested(events, key, cooldown, asked)
  {
    if key in last {
      var i :| 0 <= i < |events| && IsStamp(events[i], key, last[key]);
      assert events[i].anomaly.metric == key;
    }
  }

  /**
   * The cooldown over runs: at the end of any run a rule whose condition holds raises its alert if and only if every
   * earlier alert of its key was stamped at least the cooldown before.
   */
  lemma CooldownIff(config: Config, start: nat, ops: seq<Op>, later: seq<nat>, r: nat)
    requires IsRun(ops) && IsClock(later) && Forward(ops + [Detect(later)]) && r < RULES
    requires Rule(Run(Initial(config, start), ops), r).Some?
    ensures var s, log := Run(Initial(config, start), ops), Log(Initial(config, start), ops);
      Raises(s, later, r) <==> Rested(log, Rule(s, r).value.key, config.alertCooldown, Asked(later, r))
  {
    FrontForward(ops, Detect(later));
    RunKeeps(config, start, ops);
    LastInstantBefore(ops, Detect(later));
    var s, log := Run(Initial(config, start), ops), Log(Initial(config, start), ops);
    hide Run, Log, Rule, LastInstant, Remembers, FromLog, Rested;
    assert NotAfter(s.lastAlerts, Asked(later, r));
    hide NotAfter;
    ReadyIffRested(s.lastAlerts, log, Rule(s, r).value.key, config.alertCooldown, Asked(later, r));
  }

  lemma FrontForward(ops: seq<Op>, op: Op)
    requires IsRun(ops) && IsOp(op) && Forward(ops + [op])
    ensures Forward(ops)
  {
    forall i, j | 0 <= i < j < |ops| && ops[i].Detect? && ops[j].Detect?
      ensures ops[i].clock[2 * RULES] <= ops[j].clock[0]
    {
      assert (ops + [op])[i] == ops[i] && (ops + [op])[j] == ops[j];
    }
  }

  /** The report has an anomaly under this key. */
  predicate Reports(s: State, clock: seq<nat>, key: Key)
    requires IsClock(clock)
  {
    exists m :: 0 <= m < |Detected(s, clock).anomalies| && Detected(s, clock).anomalies[m].metric == key
  }

  lemma ReportsIff(s: State, clock: seq<nat>, key: Key)
    requires IsClock(clock)
    ensures Reports(s, clock, key) <==>
      var r := Owner(key); Raises(s, clock, r) && Rule(s, r).value.key == key
  {
    AfterIs(s, clock, RULES);
    var events, owner := After(s, clock, RULES).events, Owner(key);
    hide After, Rule;
    if Reports(s, clock, key) {
      var m :| 0 <= m < |events| && Detected(s, clock).anomalies[m].metric == key;
      assert events[m] in events;
      var r :| 0 <= r < RULES && Raises(s, clock, r) && events[m] == Raised(s, clock, r);
      RuleOwnsKey(s, r);
    }
    if Raises(s, clock, owner) && Rule(s, owner).value.key == key {
      assert Raised(s, clock, owner) in events;
      var m :| 0 <= m < |events| && events[m] == Raised(s, clock, owner);
      assert Detected(s, clock).anomalies[m].metric == key;
    }
  }

  /**
   * What a detection at the end of any run reports, under every key: an anomaly if and only if the rule of that key
   * holds under it and every earlier alert of the key was stamped at least the cooldown before.
   */
  lemma ReportedIff(config: Config, start: nat, ops: seq<Op>, later: seq<nat>, key: Key)
    requires IsRun(ops) && IsClock(later) && Forward(ops + [Detect(later)])
    ensures var s, log := Run(Initial(config, start), ops), Log(Initial(config, start), ops);
      var rule := Rule(s, Owner(key));
      Reports(s, later, key) <==>
        rule.Some? && rule.value.key == key && Rested(log, key, config.alertCooldown, Asked(later, Owner(key)))
  {
    var s := Run(Initial(config, start), ops);
    ReportsIff(s, later, key);
    hide Run, Rule, Reports, Log, Rested;
    if Rule(s, Owner(key)).Some? {
      CooldownIff(config, start, ops, later, Owner(key));
    }
  }

  /**
   * A CPU reading at or above either level is reported if and only if no CPU alert of either level was raised within
   * the cooldown: a warning mutes a later critical reading, whatever the run records and detects in between.
   */
  lemma EscalationIsMuted(config: Config, start: nat, ops: seq<Op>, later: seq<nat>)
    requires IsRun(ops) && IsClock(later) && Forward(ops + [Detect(later)])
    requires var s := Run(Initial(config, start), ops);
      s.cpu != [] && (Newest(s.cpu) >= config.cpuCritical || Newest(s.cpu) >= config.cpuWarning)
    ensures var s, log := Run(Initial(config, start), ops), Log(Initial(config, start), ops);
      Reports(s, later, Cpu) <==> Rested(log, Cpu, config.alertCooldown, Asked(later, 0))
  {
    ReportedIff(config, start, ops, later, Cpu);
    FrontForward(ops, Detect(later));
    RunKeeps(config, start, ops);
    hide Run, Log, Reports, Rested, ZBeyond;
  }
}
