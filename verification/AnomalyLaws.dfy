/** Laws of the anomaly detector: the gap report against the rules, reach of the statistical rules, and runs. */
module AnomalyLaws {
  import opened AnomalyRules
  import opened AnomalyRuns
  import opened Recent
  import opened Reals
  import opened Statistics
  import opened Text

  // ---- the gap report mirrors the rules ----

  function CheckOf(key: Key): Check {
    match key
    case Cpu => CpuThresholds
    case CpuSpike => CpuSpikeAndTrend
    case CpuTrend => CpuSpikeAndTrend
    case Memory => MemoryThresholds
    case GpuTemp => GpuTempThresholds
    case Disk => DiskUsage
    case NetworkRx => NetworkSpike
  }

  predicate Fires(s: State, check: Check) {
    exists i :: 0 <= i < RULES && Rule(s, i).Some? && CheckOf(Rule(s, i).value.key) == check
  }

  /** No z-score threshold below zero: those are exceeded by anything. */
  predicate IsSensible(c: Config) {
    c.zScoreThreshold >= 0.0
  }

  /** As many samples in every window, and a GPU temperature read or not read alike. */
  predicate SameCounts(s: State, t: State) {
    && |t.cpu| == |s.cpu| && |t.memory| == |s.memory| && |t.gpuTemp| == |s.gpuTemp|
    && |t.disk| == |s.disk| && |t.rx| == |s.rx|
    && (t.gpuTempLatest.Some? <==> s.gpuTempLatest.Some?)
    && t.config.minSamples == s.config.minSamples
  }

  /** As many samples as are held can make the check fire, for some readings and some sensible thresholds. */
  ghost predicate CanFire(s: State, check: Check) {
    exists t: State :: SameCounts(s, t) && IsSensible(t.config) && Fires(t, check)
  }

  /** The samples a statistical check runs on. */
  function StatisticalCount(s: State, check: Check): Option<nat> {
    match check
    case CpuSpikeAndTrend => Some(|s.cpu|)
    case NetworkSpike => Some(|s.rx|)
    case _ => None
  }

  /** Enough samples by min_samples, but at most one: a single value never deviates from its own window. */
  predicate TooFew(s: State, check: Check) {
    var n := StatisticalCount(s, check);
    n.Some? && s.config.minSamples <= n.value <= 1
  }

  lemma LoneValueNeverFires(s: seq<real>, t: real)
    requires |s| == 1 && t >= 0.0
    ensures !ZAbove(s, s[0], t) && !ZBeyond(s, s[0], t)
  {
    SmallNeverFallsBack(s, 0);
    ZeroSquare();
    SquareSign(t);
    hide Square;
    OnlyFallbackExceeds(s, 0, t);
  }

  lemma SilentCheck(t: State, check: Check)
    requires IsSensible(t.config) && (GapOf(t, check).Some? || TooFew(t, check))
    ensures !Fires(t, check)
  {
    if |t.cpu| == 1 {
      LoneValueNeverFires(t.cpu, t.config.zScoreThreshold);
    }
    if |t.rx| == 1 {
      LoneValueNeverFires(t.rx, t.config.zScoreThreshold * 1.5);
    }
    hide ZBeyond, ZAbove, Mean;
    forall i | 0 <= i < RULES
      ensures Rule(t, i).Some? ==> CheckOf(Rule(t, i).value.key) != check
    {
      RuleOwnsKey(t, i);
    }
  }

  /** Two or more samples whose newest value scores above zero. */
  lemma SpikeFires(n: nat)
    requires n >= 2
    ensures var w := Spike(n, 1.0);
      |w| == n && Newest(w) == n as real && ZAbove(w, n as real, 0.0) && ZBeyond(w, n as real, 0.0)
  {
    assert Square(1.0) == 1.0;
    ZeroSquare();
    SpikeNumbers(n, 1.0);
    SquarePositive(n as real - 1.0);
    hide Square, Variance, Mean;
  }

  /** Readings that make the check fire, with as many samples as s holds. */
  function Firing(s: State, check: Check): State
    requires GapOf(s, check).None? && !TooFew(s, check)
  {
    var zero := s.config.(zScoreThreshold := 0.0);
    match check
    case CpuThresholds => s.(config := zero.(cpuCritical := Newest(s.cpu)))
    case CpuSpikeAndTrend =>
      var out := |s.cpu| as real + 1.0;
      s.(cpu := Spike(|s.cpu|, 1.0), config := zero.(cpuCritical := out, cpuWarning := out))
    case MemoryThresholds => s.(config := zero.(memoryCritical := Newest(s.memory)))
    case GpuTempThresholds => s.(config := zero.(gpuTempCritical := s.gpuTempLatest.value))
    case DiskUsage => s.(config := zero.(diskWarning := Newest(s.disk)))
    case NetworkSpike => s.(rx := Spike(|s.rx|, 1.0), config := zero)
  }

  lemma FiringFires(s: State, check: Check)
    requires GapOf(s, check).None? && !TooFew(s, check)
    ensures var t := Firing(s, check); SameCounts(s, t) && IsSensible(t.config) && Fires(t, check)
  {
    var t := Firing(s, check);
    if check == CpuSpikeAndTrend {
      SpikeFires(|s.cpu|);
    }
    if check == NetworkSpike {
      SpikeFires(|s.rx|);
    }
    hide ZBeyond, ZAbove, Trend, Spike;
    match check {
      case CpuThresholds => assert Rule(t, 0) == Some(Alert(Cpu, Critical, Newest(s.cpu)));
      case CpuSpikeAndTrend => assert Rule(t, 0) == Some(Alert(CpuSpike, Info, |s.cpu| as real));
      case MemoryThresholds => assert Rule(t, 2) == Some(Alert(Memory, Critical, Newest(s.memory)));
      case GpuTempThresholds => assert Rule(t, 3) == Some(Alert(GpuTemp, Critical, s.gpuTempLatest.value));
      case DiskUsage => assert Rule(t, 4) == Some(Alert(Disk, Warning, Newest(s.disk)));
      case NetworkSpike => assert Rule(t, 5).Some? && Rule(t, 5).value.key == NetworkRx;
    }
  }

  lemma CanFireIff(s: State, check: Check)
    ensures CanFire(s, check) <==> GapOf(s, check).None? && !TooFew(s, check)
  {
    if GapOf(s, check).Some? || TooFew(s, check) {
      forall t: State | SameCounts(s, t) && IsSensible(t.config)
        ensures !Fires(t, check)
      {
        SilentCheck(t, check);
      }
    } else {
      FiringFires(s, check);
    }
  }

  /**
   * The gap report lists exactly the checks that as many samples could not make fire, except for a statistical
   * check that min_samples admits on one sample or none: that one is reported as run although it cannot fire.
   */
  lemma GapMirror(s: State, check: Check)
    ensures (Listed(s, check) <==> !CanFire(s, check)) <==> !TooFew(s, check)
  {
    ListedIff(s, check);
    CanFireIff(s, check);
    hide CanFire;
  }

  /** When a state answers Clear, in terms of its cooldown table. */
  lemma ClearMeaning(s: State, clock: seq<nat>)
    requires IsClock(clock)
    ensures VerdictOf(Detected(s, clock)) == Clear ==>
      (forall c :: GapOf(s, c).None? && !Listed(s, c))
      && ((forall c :: CanFire(s, c)) <==> |s.cpu| >= 2 && |s.rx| >= 2)
  {
    VerdictMeaning(s, clock);
    forall c
      ensures CanFire(s, c) <==> GapOf(s, c).None? && !TooFew(s, c)
      ensures Listed(s, c) <==> GapOf(s, c).Some?
    {
      CanFireIff(s, c);
      ListedIff(s, c);
    }
    hide Rule, CanFire, Detected, Listed;
    if VerdictOf(Detected(s, clock)) == Clear {
      assert GapOf(s, CpuSpikeAndTrend).None? && GapOf(s, NetworkSpike).None?;
      assert TooFew(s, CpuSpikeAndTrend) <==> |s.cpu| <= 1;
      assert TooFew(s, NetworkSpike) <==> |s.rx| <= 1;
    }
  }

  /**
   * After any run a detection answers Clear if and only if no check is listed as not run and every rule that holds has
   * an alert of its key stamped less than the cooldown before. Then every check could have fired on as many samples
   * exactly when neither statistical check ran on one sample or none, and min_samples fits in a window.
   */
  lemma ClearIsSound(config: Config, start: nat, ops: seq<Op>, later: seq<nat>)
    requires IsRun(ops) && IsClock(later) && Forward(ops + [Detect(later)])
    ensures var s, log := Run(Initial(config, start), ops), Log(Initial(config, start), ops);
      && (VerdictOf(Detected(s, later)) == Clear <==>
            && (forall c :: !Listed(s, c))
            && forall r :: 0 <= r < RULES && Rule(s, r).Some? ==>
                 !Rested(log, Rule(s, r).value.key, config.alertCooldown, Asked(later, r)))
      && (VerdictOf(Detected(s, later)) == Clear ==>
            && ((forall c :: CanFire(s, c)) <==> |s.cpu| >= 2 && |s.rx| >= 2)
            && config.minSamples <= Capacity(config.windowSize))
  {
    var s := Run(Initial(config, start), ops);
    VerdictMeaning(s, later);
    ClearMeaning(s, later);
    ReceiveWindowIs(config, start, ops);
    hide Run, Log, Rested, Rule, CanFire, Detected, Listed, Recorded;
    forall r | 0 <= r < RULES && Rule(s, r).Some?
      ensures Raises(s, later, r) <==>
        Rested(Log(Initial(config, start), ops), Rule(s, r).value.key, config.alertCooldown, Asked(later, r))
    {
      CooldownIff(config, start, ops, later, r);
    }
    if VerdictOf(Detected(s, later)) == Clear {
      assert GapOf(s, NetworkSpike).None?;
    }
  }

  /** Quiet readings of every metric, with the network never seen. */
  function Quiet(minSamples: nat): State {
    Initial(DEFAULT_CONFIG.(minSamples := minSamples), 0)
    .(cpu := [30.0], memory := [40.0], disk := [50.0], gpuTemp := [55.0], gpuTempLatest := Some(55.0))
  }

  /** With min_samples = 0 a detector that never saw network traffic can still answer Clear. */
  lemma ClearWithoutNetwork(clock: seq<nat>)
    requires IsClock(clock)
    ensures var s := Quiet(0);
      s.rx == [] && s.lastAlerts == map[] && VerdictOf(Detected(s, clock)) == Clear && !CanFire(s, NetworkSpike)
  {
    QuietIsClear(Quiet(0), clock);
    CanFireIff(Quiet(0), NetworkSpike);
  }

  /**
   * With min_samples = 1 a single sample of each metric is enough for Clear, although no statistical check can fire on
   * it.
   */
  lemma ClearOnOneSample(clock: seq<nat>)
    requires IsClock(clock)
    ensures var s := Quiet(1).(rx := [1000.0]);
      s.lastAlerts == map[] && VerdictOf(Detected(s, clock)) == Clear
      && !CanFire(s, NetworkSpike) && !CanFire(s, CpuSpikeAndTrend)
  {
    var s := Quiet(1).(rx := [1000.0]);
    QuietIsClear(s, clock);
    CanFireIff(s, NetworkSpike);
    CanFireIff(s, CpuSpikeAndTrend);
  }

  lemma QuietIsClear(s: State, clock: seq<nat>)
    requires IsClock(clock)
    requires s == Quiet(0) || s == Quiet(1).(rx := [1000.0])
    ensures VerdictOf(Detected(s, clock)) == Clear
  {
    LoneValueNeverFires(s.cpu, s.config.zScoreThreshold);
    if |s.rx| == 1 {
      LoneValueNeverFires(s.rx, s.config.zScoreThreshold * 1.5);
    }
    hide ZBeyond, ZAbove;
    assert CpuRule(s).None? && TrendRule(s).None? && NetworkRule(s).None?;
    assert Rule(s, 0).None? && Rule(s, 1).None? && Rule(s, 2).None? && Rule(s, 3).None? && Rule(s, 4).None?
           && Rule(s, 5).None?;
    forall c
      ensures !Listed(s, c)
    {
      ListedIff(s, c);
    }
    VerdictMeaning(s, clock);
  }

  // ---- what the statistical rules can reach ----

  /**
   * On a window too small for its threshold the network rule fires exactly when the newest value takes the fallback
   * score of 100 and the scaled threshold is below 100.
   */
  lemma NetworkOutOfReach(s: State)
    requires s.config.zScoreThreshold >= 0.0
    requires s.rx == [] || OutOfReach(|s.rx| as real, s.config.zScoreThreshold * 1.5)
    ensures NetworkRule(s).Some? <==>
      && s.rx != [] && |s.rx| >= s.config.minSamples
      && FallsBack(s.rx, |s.rx| - 1) && s.config.zScoreThreshold * 1.5 < 100.0
    ensures Steady(s.rx) ==> NetworkRule(s).None?
  {
    hide ZAbove, FallsBack, Steady, OutOfReach;
    if s.rx != [] {
      OnlyFallbackExceeds(s.rx, |s.rx| - 1, s.config.zScoreThreshold * 1.5);
      SteadyNeverFallsBack(s.rx, |s.rx| - 1);
    }
  }

  /** Without the requirement on the sign: a negative threshold fires on almost any window. */
  lemma NetworkBelowZero(s: State)
    requires s.config.zScoreThreshold < 0.0 && s.rx != []
    requires OutOfReach(|s.rx| as real, s.config.zScoreThreshold * 1.5)
    ensures var d := Newest(s.rx) - Mean(s.rx);
      NetworkRule(s).Some? <==>
        |s.rx| >= s.config.minSamples
        && !(Variance(s.rx) >= NEGLIGIBLE_SQ && d < 0.0
             && Square(d) == Square(s.config.zScoreThreshold * 1.5) * Variance(s.rx))
  {
    NegativeThreshold(s.rx, |s.rx| - 1, s.config.zScoreThreshold * 1.5);
    hide ZAbove, Variance, Mean, Square, OutOfReach;
  }

  /** Some run leaves n receive samples on which the network rule fires. */
  ghost predicate SomeRunFires(config: Config, start: nat, n: nat, steady: bool) {
    exists ops: seq<Op> :: RunFires(config, start, ops, n, steady)
  }

  predicate RunFires(config: Config, start: nat, ops: seq<Op>, n: nat, steady: bool) {
    && IsRun(ops)
    && var s := Run(Initial(config, start), ops);
       |s.rx| == n && (steady ==> Steady(s.rx)) && NetworkRule(s).Some?
  }

  /** Recording the values one after another. */
  function Recording(w: seq<real>): (ops: seq<Op>)
    ensures |ops| == |w| && IsRun(ops)
  {
    seq(|w|, i requires 0 <= i < |w| => RecordRx(w[i]))
  }

  lemma {:induction false} RecordingReceives(w: seq<real>)
    ensures Recorded(Recording(w), ReceiveRate) == w
  {
    if w == [] {
    } else {
      var n := |w| - 1;
      assert Recording(w)[..n] == Recording(w[..n]);
      RecordingReceives(w[..n]);
      assert w[..n] + [w[n]] == w;
    }
  }

  lemma WindowRecorded(config: Config, start: nat, w: seq<real>)
    requires |w| <= Capacity(config.windowSize)
    ensures var s := Run(Initial(config, start), Recording(w)); s.rx == w && s.config == config
  {
    RecordingReceives(w);
    ReceiveWindowIs(config, start, Recording(w));
    hide Run, Recorded, Recording;
  }

  lemma FiresOnState(s: State)
    requires s.rx != [] && s.config.minSamples <= |s.rx|
    requires ZAbove(s.rx, s.rx[|s.rx| - 1], s.config.zScoreThreshold * 1.5)
    ensures NetworkRule(s).Some?
  {
    hide ZAbove;
  }

  lemma FiresOnWindow(config: Config, start: nat, w: seq<real>, steady: bool)
    requires w != [] && config.minSamples <= |w| <= Capacity(config.windowSize)
    requires (steady ==> Steady(w)) && ZAbove(w, w[|w| - 1], config.zScoreThreshold * 1.5)
    ensures RunFires(config, start, Recording(w), |w|, steady)
  {
    WindowRecorded(config, start, w);
    hide Run, Steady, ZAbove, Recording, NetworkRule, Capacity;
    FiresOnState(Run(Initial(config, start), Recording(w)));
  }

  lemma RunFiresIff(config: Config, start: nat, n: nat, steady: bool)
    requires n >= 1
    ensures SomeRunFires(config, start, n, steady) <==>
      && config.minSamples <= n <= Capacity(config.windowSize)
      && exists w: seq<real> ::
           |w| == n && (steady ==> Steady(w)) && ZAbove(w, w[n - 1], config.zScoreThreshold * 1.5)
  {
    hide ZAbove, Steady, Run, Recorded;
    if SomeRunFires(config, start, n, steady) {
      var ops: seq<Op> :| RunFires(config, start, ops, n, steady);
      ReceiveWindowIs(config, start, ops);
      var w := Run(Initial(config, start), ops).rx;
      assert |w| == n && (steady ==> Steady(w)) && ZAbove(w, w[n - 1], config.zScoreThreshold * 1.5);
    }
    if config.minSamples <= n <= Capacity(config.windowSize) {
      if w: seq<real> :|
        |w| == n && (steady ==> Steady(w)) && ZAbove(w, w[n - 1], config.zScoreThreshold * 1.5) {
        FiresOnWindow(config, start, w, steady);
        assert RunFires(config, start, Recording(w), n, steady);
      }
    }
  }

  /**
   * Whether some run fires the network rule on n receive samples: exactly if min_samples admits n, the window holds n,
   * and the scaled threshold is within reach of n or, through the fallback, below 100 with three samples; only within
   * reach when the spread is zero or at least the cut-off.
   */
  lemma NetworkReachable(config: Config, start: nat, n: nat)
    requires config.zScoreThreshold >= 0.0 && n >= 1
    ensures var t := config.zScoreThreshold * 1.5;
      var admitted := config.minSamples <= n <= Capacity(config.windowSize);
      && (SomeRunFires(config, start, n, true) <==> admitted && !OutOfReach(n as real, t))
      && (SomeRunFires(config, start, n, false) <==> admitted && (!OutOfReach(n as real, t) || (n >= 3 && t < 100.0)))
  {
    var t := config.zScoreThreshold * 1.5;
    ExceedableIff(n, t);
    RunFiresIff(config, start, n, true);
    RunFiresIff(config, start, n, false);
    hide ZAbove, OutOfReach, Steady, SomeRunFires;
  }

  lemma DefaultReach(n: nat)
    requires n >= 1
    ensures OutOfReach(n as real, 3.75) <==> n <= 16
  {
    assert Square(3.75) == 14.0625 && Square(15.0) == 225.0 && Square(16.0) == 256.0;
    assert OutOfReach(16.0, 3.75) && !OutOfReach(17.0, 3.75);
    hide OutOfReach;
    if n <= 16 {
      ReachGrows(n as real, 16.0, 3.75);
    } else if OutOfReach(n as real, 3.75) {
      ReachGrows(17.0, n as real, 3.75);
    }
  }

  /**
   * With the defaults, up to 16 samples only the fallback can fire the network rule, while the check is reported
   * as run from 10; runs that end in a steady window can fire it exactly from 17 samples to the 60 the window holds.
   */
  lemma DefaultNetworkFloor(s: State, start: nat)
    requires s.config == DEFAULT_CONFIG
    ensures |s.rx| <= 16 ==> (NetworkRule(s).Some? <==> |s.rx| >= 10 && FallsBack(s.rx, |s.rx| - 1))
    ensures Listed(s, NetworkSpike) <==> |s.rx| < 10
    ensures |s.rx| >= 1 ==> (SomeRunFires(DEFAULT_CONFIG, start, |s.rx|, true) <==> 17 <= |s.rx| <= 60)
    ensures |s.rx| >= 1 ==> (SomeRunFires(DEFAULT_CONFIG, start, |s.rx|, false) <==> 10 <= |s.rx| <= 60)
  {
    assert 2.5 * 1.5 == 3.75;
    ListedIff(s, NetworkSpike);
    hide OutOfReach, FallsBack, Steady, ZAbove, SomeRunFires;
    if s.rx != [] {
      DefaultReach(|s.rx|);
      NetworkReachable(DEFAULT_CONFIG, start, |s.rx|);
    }
    if |s.rx| <= 16 {
      NetworkOutOfReach(s);
    }
  }

  /** The CPU spike rule is bounded the same way, at the unscaled threshold. */
  lemma CpuSpikeOutOfReach(s: State)
    requires s.config.zScoreThreshold >= 0.0
    requires s.cpu == [] || OutOfReach(|s.cpu| as real, s.config.zScoreThreshold)
    ensures CpuRule(s).Some? && CpuRule(s).value.key == CpuSpike <==>
      && s.cpu != [] && |s.cpu| >= s.config.minSamples
      && Newest(s.cpu) < s.config.cpuCritical && Newest(s.cpu) < s.config.cpuWarning
      && FallsBack(s.cpu, |s.cpu| - 1) && s.config.zScoreThreshold < 100.0
  {
    hide ZBeyond, FallsBack, OutOfReach;
    if s.cpu != [] {
      OnlyFallbackExceeds(s.cpu, |s.cpu| - 1, s.config.zScoreThreshold);
    }
  }

  /** The trend rule cannot fire on a window whose values stay within 15 points. */
  lemma TrendNeedsSpread(s: State, lo: real)
    requires Within(s.cpu, lo, lo + 15.0)
    ensures TrendRule(s).None?
  {
    if s.cpu != [] {
      TrendWithinSpread(s.cpu, lo, lo + 15.0);
    }
  }

  /**
   * A window size out of reach of the scaled threshold: after every run the network rule fires exactly when the
   * newest rate takes the fallback and the scaled threshold is below 100.
   */
  lemma SmallWindowFiresOnFallback(config: Config, start: nat, ops: seq<Op>)
    requires IsRun(ops) && config.zScoreThreshold >= 0.0
    requires OutOfReach(Capacity(config.windowSize) as real, config.zScoreThreshold * 1.5)
    ensures var s := Run(Initial(config, start), ops);
      && (NetworkRule(s).Some? <==>
            && s.rx != [] && |s.rx| >= config.minSamples
            && FallsBack(s.rx, |s.rx| - 1) && config.zScoreThreshold * 1.5 < 100.0)
      && (Steady(s.rx) ==> NetworkRule(s).None?)
  {
    ReceiveWindowIs(config, start, ops);
    var s := Run(Initial(config, start), ops);
    hide OutOfReach, Variance, ZAbove, FallsBack, Steady, Run, Recorded;
    if s.rx != [] {
      ReachGrows(|s.rx| as real, Capacity(config.windowSize) as real, config.zScoreThreshold * 1.5);
    }
    NetworkOutOfReach(s);
  }
}
