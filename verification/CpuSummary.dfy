/** cpufreq_summary of src/cpufreq.rs: counts and frequency aggregates with the source's integer widths. */
module CpuSummary {
  import opened CpuFreq
  import opened FileStore
  import opened Text

  datatype Summary = Summary(
    totalCpus: nat,
    onlineCpus: Option<nat>,
    avgMhz: Option<nat>,
    maxMhz: Option<nat>,
    minMhz: Option<nat>)

  /** CPUs not known to be offline. */
  function Usable(cpus: seq<CpuInfo>): seq<CpuInfo> {
    if cpus == [] then []
    else (if cpus[0].online != Some(false) then [cpus[0]] else []) + Usable(cpus[1..])
  }

  function Khz(cpus: seq<CpuInfo>): seq<nat> {
    if cpus == [] then []
    else (if cpus[0].currentKhz.Some? then [cpus[0].currentKhz.value] else []) + Khz(cpus[1..])
  }

  function Mhz(cpus: seq<CpuInfo>): seq<nat> {
    if cpus == [] then []
    else (if cpus[0].currentMhz.Some? then [cpus[0].currentMhz.value] else []) + Mhz(cpus[1..])
  }

  function SumOf(s: seq<nat>): nat {
    if s == [] then 0 else s[0] + SumOf(s[1..])
  }

  function MaxOf(s: seq<nat>): Option<nat> {
    if s == [] then None
    else
      match MaxOf(s[1..])
      case None => Some(s[0])
      case Some(m) => Some(if s[0] > m then s[0] else m)
  }

  function MinOf(s: seq<nat>): Option<nat> {
    if s == [] then None
    else
      match MinOf(s[1..])
      case None => Some(s[0])
      case Some(m) => Some(if s[0] <= m then s[0] else m)
  }

  /** Floor division, behind a name so that products with it stay out of other proofs. */
  function Quotient(a: nat, n: nat): nat
    requires n > 0
  {
    a / n
  }

  function Thousandth(x: nat): nat {
    x / 1000
  }

  /** A 64-bit sum. */
  function Sum64(khz: seq<nat>): nat {
    SumOf(khz) % U64
  }

  /** Mean in kHz: the sum and a floor division. */
  function MeanKhz(khz: seq<nat>): nat
    requires khz != []
  {
    Quotient(Sum64(khz), |khz|)
  }

  /** Mean in MHz: a second floor division and a cast to 32 bits. */
  function Average(khz: seq<nat>): Option<nat> {
    if khz == [] then None else Some(ToMhz(MeanKhz(khz)))
  }

  function CountOnline(cpus: seq<CpuInfo>, state: bool): nat {
    if cpus == [] then 0
    else
      var counted := cpus[0].online.Some? && cpus[0].online.value == state;
      (if counted then 1 else 0) + CountOnline(cpus[1..], state)
  }

  predicate SomeUnread(cpus: seq<CpuInfo>) {
    exists i :: 0 <= i < |cpus| && cpus[i].online.None?
  }

  function Summarize(cpus: seq<CpuInfo>): Summary {
    var usable := Usable(cpus);
    Summary(|cpus|,
            if SomeUnread(cpus) then None else Some(CountOnline(cpus, true)),
            Average(Khz(usable)), MaxOf(Mhz(usable)), MinOf(Mhz(usable)))
  }

  /** The two frequency fields of a record come from one reading. */
  predicate OneReading(cpus: seq<CpuInfo>) {
    forall i :: 0 <= i < |cpus| ==>
      cpus[i].currentMhz == match cpus[i].currentKhz case None => None case Some(f) => Some(ToMhz(f))
  }

  lemma {:induction false} ReadingsAreOne(store: Store, entries: seq<string>)
    ensures OneReading(ReadCpus(store, entries))
  {
    if entries == [] {
    } else {
      ReadingsAreOne(store, entries[..|entries| - 1]);
    }
  }

  /** Discovery reads both fields of every CPU together. */
  lemma DiscoveryIsOneReading(store: Store)
    ensures Discovered(store).Some? ==> OneReading(Discovered(store).value)
  {
    if Discovered(store).Some? {
      var entries := store.listing(CPU_ROOT).value.names;
      var read, cpus := ReadCpus(store, entries), Discovered(store).value;
      ReadingsAreOne(store, entries);
      SortMembers(read);
      hide ReadCpus, SortById, Discovered;
      forall i | 0 <= i < |cpus|
        ensures cpus[i] in read
      {
        assert multiset(cpus)[cpus[i]] > 0;
      }
    }
  }

  lemma {:induction false} UsableKeeps(cpus: seq<CpuInfo>)
    requires OneReading(cpus)
    ensures OneReading(Usable(cpus))
  {
    if cpus == [] {
    } else {
      UsableKeeps(cpus[1..]);
    }
  }

  lemma {:induction false} MhzOfKhz(cpus: seq<CpuInfo>)
    requires OneReading(cpus)
    ensures |Mhz(cpus)| == |Khz(cpus)|
    ensures forall i :: 0 <= i < |Khz(cpus)| ==> Mhz(cpus)[i] == ToMhz(Khz(cpus)[i])
  {
    if cpus == [] {
    } else {
      MhzOfKhz(cpus[1..]);
      assert OneReading(cpus[..1]);
    }
  }

  lemma {:induction false} Extremes(s: seq<nat>)
    requires s != []
    ensures MinOf(s).Some? && MaxOf(s).Some?
    ensures forall i :: 0 <= i < |s| ==> MinOf(s).value <= s[i] <= MaxOf(s).value
    ensures MinOf(s).value in s && MaxOf(s).value in s
  {
    if |s| == 1 {
      assert s[1..] == [];
    } else {
      Extremes(s[1..]);
    }
  }

  lemma {:induction false} SumBetween(s: seq<nat>, lo: nat, hi: nat)
    requires forall i :: 0 <= i < |s| ==> lo <= s[i] <= hi
    ensures |s| * lo <= SumOf(s) <= |s| * hi
  {
    if s == [] {
    } else {
      var n := |s[1..]|;
      SumBetween(s[1..], lo, hi);
      Distribute(n, lo);
      Distribute(n, hi);
      assert |s| == n + 1;
    }
  }

  lemma Distribute(n: nat, a: nat)
    ensures (n + 1) * a == n * a + a
  {
  }

  lemma CancelTimes(n: nat, a: nat, b: nat)
    ensures n * a < n * b ==> a < b
  {
    if b <= a {
      assert n * a == n * b + n * (a - b);
    }
  }

  lemma DivisionLine(sum: nat, n: nat)
    requires n > 0
    ensures n * Quotient(sum, n) <= sum < n * Quotient(sum, n) + n
  {
  }

  lemma FloorAtLeast(sum: nat, n: nat, lo: nat)
    requires n > 0 && n * lo <= sum
    ensures lo <= Quotient(sum, n)
  {
    DivisionLine(sum, n);
    hide Quotient;
    var q := Quotient(sum, n);
    NextMultiple(n, q);
    CancelTimes(n, lo, q + 1);
  }

  lemma FloorAtMost(sum: nat, n: nat, hi: nat)
    requires n > 0 && sum <= n * hi
    ensures Quotient(sum, n) <= hi
  {
    DivisionLine(sum, n);
    hide Quotient;
    NextMultiple(n, hi);
    CancelTimes(n, Quotient(sum, n), hi + 1);
  }

  lemma NextMultiple(n: nat, q: nat)
    ensures n * (q + 1) == n * q + n
  {
  }

  lemma ThousandthOrder(a: nat, b: nat)
    requires a <= b
    ensures Thousandth(a) <= Thousandth(b)
  {
  }

  /** No reading and no sum overflows the types that hold them. */
  predicate Fits(khz: seq<nat>) {
    SumOf(khz) < U64 && AllFit(khz)
  }

  predicate AllFit(khz: seq<nat>) {
    forall i :: 0 <= i < |khz| ==> Thousandth(khz[i]) < U32
  }

  lemma TrueMeanBetween(khz: seq<nat>, lo: nat, hi: nat)
    requires khz != []
    requires forall i :: 0 <= i < |khz| ==> lo <= khz[i] <= hi
    ensures lo <= Quotient(SumOf(khz), |khz|) <= hi
  {
    SumBetween(khz, lo, hi);
    hide SumOf, Quotient;
    FloorAtLeast(SumOf(khz), |khz|, lo);
    FloorAtMost(SumOf(khz), |khz|, hi);
  }

  /** The true mean in MHz, with no integer width. */
  function TrueAverage(khz: seq<nat>): nat
    requires khz != []
  {
    Thousandth(Quotient(SumOf(khz), |khz|))
  }

  lemma Wraps(sum: nat)
    requires sum >= U64
    ensures sum % U64 + U64 <= sum
  {
  }

  /** A sum that wraps loses at least one MHz of the average, for any list that fits in memory. */
  lemma WrappedMean(sum: nat, n: nat)
    requires 0 < n && n * 1000 <= U64 <= sum
    ensures Thousandth(Quotient(sum % U64, n)) < Thousandth(Quotient(sum, n))
  {
    var r := sum % U64;
    Wraps(sum);
    DivisionLine(r, n);
    hide Quotient;
    ThousandMore(sum, r, n, Quotient(r, n));
    FloorAtLeast(sum, n, Quotient(r, n) + 1000);
  }

  lemma ThousandMore(sum: nat, r: nat, n: nat, q: nat)
    requires n * 1000 <= U64 && r + U64 <= sum && n * q <= r
    ensures n * (q + 1000) <= sum
  {
    assert n * (q + 1000) == n * q + n * 1000;
  }

  lemma SmallSum(khz: seq<nat>)
    requires SumOf(khz) < U64
    ensures Sum64(khz) == SumOf(khz)
  {
  }

  lemma AverageIsTrue(khz: seq<nat>)
    requires khz != [] && Fits(khz)
    ensures Average(khz) == Some(TrueAverage(khz))
  {
    SmallSum(khz);
    Extremes(khz);
    hide SumOf, MinOf, MaxOf, Sum64, Quotient;
    var mean := Quotient(SumOf(khz), |khz|);
    TrueMeanBetween(khz, MinOf(khz).value, MaxOf(khz).value);
    var i: nat :| i < |khz| && khz[i] == MaxOf(khz).value;
    ThousandthOrder(mean, khz[i]);
    CastKeeps(mean);
    hide Thousandth;
  }

  /** The cast to MHz is exact below 32 bits and never above the true value. */
  lemma CastKeeps(khz: nat)
    ensures ToMhz(khz) <= Thousandth(khz) && ToMhz(khz) < U32
    ensures Thousandth(khz) < U32 ==> ToMhz(khz) == Thousandth(khz)
  {
  }

  lemma AverageIsFalse(khz: seq<nat>)
    requires khz != [] && |khz| * 1000 <= U64 <= SumOf(khz)
    ensures Average(khz) != Some(TrueAverage(khz))
  {
    hide SumOf;
    WrappedMean(SumOf(khz), |khz|);
    assert Sum64(khz) == SumOf(khz) % U64;
    hide Quotient, Thousandth, Sum64;
    CastKeeps(MeanKhz(khz));
  }

  /** The maximum shown is the true one exactly when no reading is beyond 32 bits of MHz. */
  lemma MaxIsTrueIff(khz: seq<nat>, mhz: seq<nat>)
    requires khz != [] && AreMhz(khz, mhz)
    ensures MaxOf(khz).Some? && MaxOf(mhz).Some?
    ensures MaxOf(mhz).value == Thousandth(MaxOf(khz).value) <==> AllFit(khz)
  {
    Extremes(khz);
    Extremes(mhz);
    hide MinOf, MaxOf, ToMhz, Thousandth;
    var hi, top := MaxOf(khz).value, MaxOf(mhz).value;
    var i: nat :| i < |khz| && khz[i] == hi;
    var k: nat :| k < |mhz| && mhz[k] == top;
    CastKeeps(khz[i]);
    CastKeeps(khz[k]);
    ThousandthOrder(khz[k], hi);
    forall j | 0 <= j < |khz|
      ensures Thousandth(khz[j]) <= Thousandth(hi)
    {
      ThousandthOrder(khz[j], hi);
    }
  }

  lemma MinIsTrue(khz: seq<nat>, mhz: seq<nat>)
    requires khz != [] && |mhz| == |khz| && AreMhz(khz, mhz) && AllFit(khz)
    ensures MinOf(khz).Some? && MinOf(mhz) == Some(Thousandth(MinOf(khz).value))
  {
    hide MinOf, ToMhz, Thousandth, AreMhz, AllFit;
    var j := MinAt(khz);
    var l := MinAt(mhz);
    MinBelow(khz, l);
    MinBelow(mhz, j);
    ExactMhz(khz, mhz, j);
    ExactMhz(khz, mhz, l);
    ThousandthOrder(khz[j], khz[l]);
  }

  lemma MinAt(s: seq<nat>) returns (i: nat)
    requires s != []
    ensures i < |s| && MinOf(s) == Some(s[i])
  {
    Extremes(s);
    hide MinOf, MaxOf;
    i :| i < |s| && s[i] == MinOf(s).value;
  }

  lemma MinBelow(s: seq<nat>, i: nat)
    requires i < |s|
    ensures MinOf(s).Some? && MinOf(s).value <= s[i]
  {
    Extremes(s);
  }

  lemma ExactMhz(khz: seq<nat>, mhz: seq<nat>, i: nat)
    requires AreMhz(khz, mhz) && AllFit(khz) && i < |khz| == |mhz|
    ensures mhz[i] == Thousandth(khz[i])
  {
    hide ToMhz, Thousandth;
    CastKeeps(khz[i]);
  }

  predicate AreMhz(khz: seq<nat>, mhz: seq<nat>) {
    |mhz| == |khz| && forall i :: 0 <= i < |khz| ==> mhz[i] == ToMhz(khz[i])
  }

  /** The aggregates are those of the readings, with no integer width. */
  predicate IsTrue(s: Summary, khz: seq<nat>)
    requires khz != []
  {
    && MinOf(khz).Some? && s.minMhz == Some(Thousandth(MinOf(khz).value))
    && s.avgMhz == Some(TrueAverage(khz))
    && MaxOf(khz).Some? && s.maxMhz == Some(Thousandth(MaxOf(khz).value))
  }

  /** Minimum, average and maximum are all the true ones if and only if no reading and no sum overflows. */
  lemma SummaryIsTrueIff(cpus: seq<CpuInfo>)
    requires OneReading(cpus) && Khz(Usable(cpus)) != [] && |Khz(Usable(cpus))| * 1000 <= U64
    ensures IsTrue(Summarize(cpus), Khz(Usable(cpus))) <==> Fits(Khz(Usable(cpus)))
  {
    var khz, mhz := Khz(Usable(cpus)), Mhz(Usable(cpus));
    UsableKeeps(cpus);
    MhzOfKhz(Usable(cpus));
    hide Usable, Khz, Mhz, OneReading, ToMhz, SumOf, Average, TrueAverage, MinOf, MaxOf, AllFit, Thousandth;
    MaxIsTrueIff(khz, mhz);
    if Fits(khz) {
      AverageIsTrue(khz);
      MinIsTrue(khz, mhz);
    } else if AllFit(khz) {
      AverageIsFalse(khz);
    }
  }

  /** The true aggregates are in order, despite the two floors. */
  lemma TrueIsOrdered(s: Summary, khz: seq<nat>)
    requires khz != [] && IsTrue(s, khz)
    ensures s.minMhz.value <= s.avgMhz.value <= s.maxMhz.value
  {
    Extremes(khz);
    var lo, hi := MinOf(khz).value, MaxOf(khz).value;
    hide SumOf, MinOf, MaxOf, Quotient, Thousandth;
    TrueMeanBetween(khz, lo, hi);
    ThousandthOrder(lo, Quotient(SumOf(khz), |khz|));
    ThousandthOrder(Quotient(SumOf(khz), |khz|), hi);
  }

  /**
   * Whenever a usable core reported a frequency, minimum <= average <= maximum despite the nested floors, if nothing
   * overflows.
   */
  lemma SummaryIsOrdered(cpus: seq<CpuInfo>)
    requires OneReading(cpus) && Khz(Usable(cpus)) != [] && Fits(Khz(Usable(cpus)))
    ensures var s := Summarize(cpus);
      s.minMhz.Some? && s.avgMhz.Some? && s.maxMhz.Some? && s.minMhz.value <= s.avgMhz.value <= s.maxMhz.value
  {
    var khz, mhz := Khz(Usable(cpus)), Mhz(Usable(cpus));
    UsableKeeps(cpus);
    MhzOfKhz(Usable(cpus));
    hide Usable, Khz, Mhz, OneReading, ToMhz, SumOf, Average, TrueAverage, MinOf, MaxOf, AllFit, Thousandth;
    MaxIsTrueIff(khz, mhz);
    AverageIsTrue(khz);
    MinIsTrue(khz, mhz);
    TrueIsOrdered(Summarize(cpus), khz);
  }

  /** For every state of the files, the summary of the CPUs a discovery lists is in order, if nothing overflows. */
  lemma DiscoveredSummaryIsOrdered(store: Store)
    requires Discovered(store).Some?
    requires Khz(Usable(Discovered(store).value)) != [] && Fits(Khz(Usable(Discovered(store).value)))
    ensures var s := Summarize(Discovered(store).value);
      s.minMhz.Some? && s.avgMhz.Some? && s.maxMhz.Some? && s.minMhz.value <= s.avgMhz.value <= s.maxMhz.value
  {
    DiscoveryIsOneReading(store);
    SummaryIsOrdered(Discovered(store).value);
  }

  /** The three aggregates are known together, exactly when some usable core reported a frequency. */
  lemma SummaryKnownTogether(cpus: seq<CpuInfo>)
    requires OneReading(cpus)
    ensures var s := Summarize(cpus);
      && (s.avgMhz.Some? <==> Khz(Usable(cpus)) != [])
      && (s.minMhz.Some? <==> s.avgMhz.Some?) && (s.maxMhz.Some? <==> s.avgMhz.Some?)
  {
    UsableKeeps(cpus);
    MhzOfKhz(Usable(cpus));
    if Mhz(Usable(cpus)) != [] {
      Extremes(Mhz(Usable(cpus)));
    }
  }

  /** Readings too large for 32 bits of MHz break the order: two cores can average below their own minimum. */
  lemma CastBreaksOrder()
    ensures var cpu := (khz: nat) => CpuInfo(0, Some(true), Some(khz), Some(ToMhz(khz)), None, None, UNREAD, None);
      var cpus := [cpu(6442450944000), cpu(2147483648000)];
      var s := Summarize(cpus);
      OneReading(cpus) && s.minMhz == Some(2147483648) && s.avgMhz == Some(0)
  {
    var a := CpuInfo(0, Some(true), Some(6442450944000), Some(ToMhz(6442450944000)), None, None, UNREAD, None);
    var b := CpuInfo(0, Some(true), Some(2147483648000), Some(ToMhz(2147483648000)), None, None, UNREAD, None);
    TwoCores(a, b);
    assert ToMhz(6442450944000) == 2147483648 && ToMhz(2147483648000) == 2147483648;
    TwoSum(6442450944000, 2147483648000);
    assert ToMhz(4294967296000) == 0;
  }

  lemma TwoSum(f: nat, g: nat)
    requires f + g < U64
    ensures MeanKhz([f, g]) == (f + g) / 2
  {
    var s := [f, g];
    assert s[1..] == [g] && s[1..][1..] == [];
    assert SumOf(s[1..]) == g;
    assert SumOf(s) == f + g;
  }

  lemma TwoUsable(a: CpuInfo, b: CpuInfo)
    requires a.online == Some(true) && b.online == Some(true)
    requires a.currentKhz.Some? && b.currentKhz.Some? && a.currentMhz.Some? && b.currentMhz.Some?
    ensures Usable([a, b]) == [a, b]
    ensures Khz([a, b]) == [a.currentKhz.value, b.currentKhz.value]
    ensures Mhz([a, b]) == [a.currentMhz.value, b.currentMhz.value]
  {
    var cpus := [a, b];
    assert cpus[1..] == [b] && [b][1..] == [];
    assert Usable([b]) == [b];
    assert Khz([b]) == [b.currentKhz.value];
    assert Mhz([b]) == [b.currentMhz.value];
  }

  lemma TwoMin(x: nat, y: nat)
    ensures MinOf([x, y]) == Some(if x <= y then x else y)
  {
    assert [x, y][1..] == [y] && [y][1..] == [];
    assert MinOf([y]) == Some(y);
  }

  lemma TwoCores(a: CpuInfo, b: CpuInfo)
    requires a.online == Some(true) && b.online == Some(true)
    requires a.currentKhz.Some? && b.currentKhz.Some? && a.currentMhz.Some? && b.currentMhz.Some?
    ensures var s, x, y := Summarize([a, b]), a.currentMhz.value, b.currentMhz.value;
      s.minMhz == Some(if x <= y then x else y)
      && s.avgMhz == Average([a.currentKhz.value, b.currentKhz.value])
  {
    TwoUsable(a, b);
    TwoMin(a.currentMhz.value, b.currentMhz.value);
    hide Usable, Khz, Mhz, MinOf, MaxOf, Average, CountOnline;
  }

  lemma {:induction false} CountEach(cpus: seq<CpuInfo>)
    ensures !SomeUnread(cpus) ==> CountOnline(cpus, true) + CountOnline(cpus, false) == |cpus|
  {
    if cpus == [] {
    } else {
      var tail := cpus[1..];
      CountEach(tail);
      if i :| 0 <= i < |tail| && tail[i].online.None? {
        assert cpus[i + 1].online.None? && SomeUnread(cpus);
      }
      var state := cpus[0].online;
      if state.None? {
        assert SomeUnread(cpus);
      }
    }
  }

  /** A known online count and the offline count add up to the total; an unread state leaves the count unknown. */
  lemma CountsAddUp(cpus: seq<CpuInfo>)
    ensures Summarize(cpus).onlineCpus.None? <==> SomeUnread(cpus)
    ensures Summarize(cpus).onlineCpus.Some? ==>
      Summarize(cpus).onlineCpus.value + CountOnline(cpus, false) == Summarize(cpus).totalCpus
  {
    CountEach(cpus);
    hide Average, MaxOf, MinOf, Usable;
  }

  // ---- what is counted and summed ----

  lemma {:induction false} CountConcat(a: seq<CpuInfo>, b: seq<CpuInfo>, state: bool)
    ensures CountOnline(a + b, state) == CountOnline(a, state) + CountOnline(b, state)
  {
    if a == [] {
      assert a + b == b;
    } else {
      assert (a + b)[1..] == a[1..] + b;
      CountConcat(a[1..], b, state);
    }
  }

  function InState(cpus: seq<CpuInfo>, state: bool): set<nat> {
    set i | 0 <= i < |cpus| && cpus[i].online == Some(state)
  }

  lemma LastInState(cpus: seq<CpuInfo>, state: bool)
    requires cpus != []
    ensures var n := |cpus| - 1;
      |InState(cpus, state)| == |InState(cpus[..n], state)| + if cpus[n].online == Some(state) then 1 else 0
  {
    var n := |cpus| - 1;
    var before := InState(cpus[..n], state);
    assert n !in before;
    assert InState(cpus, state) == if cpus[n].online == Some(state) then before + {n} else before;
  }

  lemma LastCounted(cpus: seq<CpuInfo>, state: bool)
    requires cpus != []
    ensures var n := |cpus| - 1;
      CountOnline(cpus, state) == CountOnline(cpus[..n], state) + if cpus[n].online == Some(state) then 1 else 0
  {
    var n := |cpus| - 1;
    assert cpus == cpus[..n] + [cpus[n]];
    CountConcat(cpus[..n], [cpus[n]], state);
    assert [cpus[n]][1..] == [];
    assert CountOnline([cpus[n]][1..], state) == 0;
  }

  /** The count of a state is the number of records in it. */
  lemma {:induction false} CountIs(cpus: seq<CpuInfo>, state: bool)
    ensures CountOnline(cpus, state) == |InState(cpus, state)|
  {
    if cpus == [] {
      assert InState(cpus, state) == {};
    } else {
      CountIs(cpus[..|cpus| - 1], state);
      LastInState(cpus, state);
      LastCounted(cpus, state);
      hide CountOnline, InState;
    }
  }

  /**
   * The number of CPUs online: the exact number when every state was read, and unknown when one was not.
   */
  lemma OnlineCountIs(cpus: seq<CpuInfo>)
    ensures Summarize(cpus).totalCpus == |cpus|
    ensures Summarize(cpus).onlineCpus.None? <==> exists i :: 0 <= i < |cpus| && cpus[i].online == None
    ensures Summarize(cpus).onlineCpus.Some? ==>
      Summarize(cpus).onlineCpus.value == |InState(cpus, true)|
  {
    CountIs(cpus, true);
    hide CountOnline, Average, MaxOf, MinOf, Usable, Khz, Mhz;
  }

  /** The readings the aggregates are made of: one from each record that is not offline and has one. */
  lemma {:induction false} ReadingsConcat(a: seq<CpuInfo>, b: seq<CpuInfo>)
    ensures Khz(Usable(a + b)) == Khz(Usable(a)) + Khz(Usable(b))
  {
    if a == [] {
      assert a + b == b;
    } else {
      assert (a + b)[1..] == a[1..] + b;
      ReadingsConcat(a[1..], b);
      FirstReading(a + b);
      FirstReading(a);
      hide Khz, Usable;
    }
  }

  function ReadingOf(c: CpuInfo): seq<nat> {
    if c.online != Some(false) && c.currentKhz.Some? then [c.currentKhz.value] else []
  }

  lemma FirstReading(cpus: seq<CpuInfo>)
    requires cpus != []
    ensures Khz(Usable(cpus)) == ReadingOf(cpus[0]) + Khz(Usable(cpus[1..]))
  {
    var rest := Usable(cpus[1..]);
    assert cpus[0].online != Some(false) ==> ([cpus[0]] + rest)[1..] == rest;
    assert [] + rest == rest;
  }

  lemma OneReadingOf(c: CpuInfo)
    ensures Khz(Usable([c])) == ReadingOf(c)
  {
    FirstReading([c]);
    assert [c][1..] == [];
  }

  lemma {:induction false} SumConcat(a: seq<nat>, b: seq<nat>)
    ensures SumOf(a + b) == SumOf(a) + SumOf(b)
  {
    if a == [] {
      assert a + b == b;
    } else {
      assert (a + b)[1..] == a[1..] + b;
      SumConcat(a[1..], b);
    }
  }
}
