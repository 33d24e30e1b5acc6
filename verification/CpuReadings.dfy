/** What a cpufreq refresh lists and shows of the files under sysfs, and what a setter does to them, file by file. */
module CpuReadings {
  import opened CpuFreq
  import opened FileStore
  import opened Text

  // ---- names ----

  /**
   * The directories of CPUs are those called cpu and a number that fits 32 bits, with an optional plus sign; cpufreq,
   * cpuidle and the like are none.
   */
  lemma IdIff(entry: string, id: nat)
    ensures IdOf(entry) == Some(id) <==>
      id < 0x1_0000_0000 && exists digits :: IsDigits(digits, 10) && Number(digits, 10) == id
                              && (entry == "cpu" + digits || entry == "cpu" + ("+" + digits))
  {
    hide ParseUnsigned, AllDigits, Number;
    if |entry| >= 3 && entry[..3] == "cpu" {
      var rest := entry[3..];
      assert entry == "cpu" + rest;
      UnsignedIff(rest, 10, U32, id);
      forall digits
        ensures entry == "cpu" + digits <==> rest == digits
        ensures entry == "cpu" + ("+" + digits) <==> rest == "+" + digits
      {
        assert ("cpu" + digits)[3..] == digits;
        assert ("cpu" + ("+" + digits))[3..] == "+" + digits;
      }
    } else {
      forall digits: string
        ensures entry != "cpu" + digits
      {
        assert ("cpu" + digits)[..3] == "cpu";
      }
    }
  }

  /** Which governor each text is, for the texts as they stand after lower-casing. */
  lemma GovernorNames(s: string)
    ensures ParseLower(s) == Performance <==> s == "performance"
    ensures ParseLower(s) == Powersave <==> s == "powersave"
    ensures ParseLower(s) == Ondemand <==> s == "ondemand"
    ensures ParseLower(s) == Conservative <==> s == "conservative"
    ensures ParseLower(s) == Userspace <==> s == "userspace"
    ensures ParseLower(s) == Schedutil <==> s == "schedutil"
    ensures ParseLower(s) == IntelPstate <==> s == "intel_pstate"
    ensures ParseLower(s) == AmdPstate <==> s in {"amd_pstate", "amd-pstate", "amd-pstate-epp"}
    ensures ParseLower(s) == Interactive <==> s == "interactive"
    ensures forall n :: ParseLower(s) == Unknown(n) <==> s == n && n !in KNOWN_NAMES
  {
  }

  // ---- records ----

  function CpuDir(entry: string): Path {
    ["sys", "devices", "system", "cpu", entry]
  }

  function CpufreqFile(entry: string, leaf: string): Path {
    ["sys", "devices", "system", "cpu", entry, "cpufreq", leaf]
  }

  lemma CpufreqPath(entry: string, leaf: string)
    ensures FreqFile(CPU_ROOT + [entry], leaf) == CpufreqFile(entry, leaf) == CpuDir(entry) + ["cpufreq", leaf]
    ensures CPU_ROOT + [entry] == CpuDir(entry)
  {
  }

  /** A CPU that is not said to be offline and has a cpufreq directory shows what its files hold. */
  lemma RecordShows(store: Store, entry: string, id: nat)
    requires !SaysOffline(store, CpuDir(entry)) && store.DirExists(CpuDir(entry) + ["cpufreq"])
    ensures var c := ReadCpu(store, entry, id);
      && c.id == id && c.sysfsPath == Some(CpuDir(entry))
      && Mirrors(store, CpufreqFile(entry, "scaling_cur_freq"), 0x1_0000_0000_0000_0000, c.currentKhz)
      && Mirrors(store, CpufreqFile(entry, "scaling_min_freq"), 0x1_0000_0000_0000_0000, c.minKhz)
      && Mirrors(store, CpufreqFile(entry, "scaling_max_freq"), 0x1_0000_0000_0000_0000, c.maxKhz)
      && (c.currentMhz.Some? <==> c.currentKhz.Some?)
      && (c.currentKhz.Some? && c.currentKhz.value < 4_294_967_296_000 ==>
            c.currentMhz.value * 1000 <= c.currentKhz.value < c.currentMhz.value * 1000 + 1000)
  {
    CpufreqPath(entry, "scaling_cur_freq");
    CpufreqPath(entry, "scaling_min_freq");
    CpufreqPath(entry, "scaling_max_freq");
    NumberMirrors(store, CpufreqFile(entry, "scaling_cur_freq"), U64);
    NumberMirrors(store, CpufreqFile(entry, "scaling_min_freq"), U64);
    NumberMirrors(store, CpufreqFile(entry, "scaling_max_freq"), U64);
    OnlineIff(store, CpuDir(entry));
    hide Mirrors, SaysOffline, ReadOnline, Store.ReadNumber, ParseGovernor, Trim, CpufreqFile, FreqFile,
         Store.DirExists;
  }

  /** Its governor is the one named by the trimmed text of its file; without a readable file it is unknown. */
  lemma RecordGovernor(store: Store, entry: string, id: nat)
    requires !SaysOffline(store, CpuDir(entry)) && store.DirExists(CpuDir(entry) + ["cpufreq"])
    ensures var c, file := ReadCpu(store, entry, id), CpufreqFile(entry, "scaling_governor");
      && (Silent(store, file) ==> c.governor == Unknown("unknown"))
      && (!Silent(store, file) ==> c.governor == ParseLower(store.lowercase(Trim(store.files[file]))))
  {
    CpufreqPath(entry, "scaling_governor");
    OnlineIff(store, CpuDir(entry));
    hide SaysOffline, ReadOnline, Store.ReadNumber, ParseLower, Trim, CpufreqFile, FreqFile, Store.DirExists;
  }

  /** Every other CPU shows its online state and nothing else. */
  lemma RecordIsBare(store: Store, entry: string, id: nat)
    requires SaysOffline(store, CpuDir(entry)) || !store.DirExists(CpuDir(entry) + ["cpufreq"])
    ensures var c := ReadCpu(store, entry, id);
      && c == CpuInfo(id, c.online, None, None, None, None, Unknown("unknown"), Some(CpuDir(entry)))
  {
    CpufreqPath(entry, "");
    OnlineIff(store, CpuDir(entry));
    hide SaysOffline, ReadOnline, Store.ReadNumber, Store.DirExists;
  }

  // ---- what is listed ----

  /** The record is what discovery reads of this directory. */
  ghost predicate IsRecord(store: Store, entry: string, c: CpuInfo) {
    IdOf(entry).Some? && c == ReadCpu(store, entry, IdOf(entry).value)
  }

  lemma {:induction false} RecordsConcat(store: Store, a: seq<string>, b: seq<string>)
    ensures ReadCpus(store, a + b) == ReadCpus(store, a) + ReadCpus(store, b)
  {
    if b == [] {
      assert a + b == a;
    } else {
      var n := |b| - 1;
      assert (a + b)[..|a| + n] == a + b[..n];
      RecordsConcat(store, a, b[..n]);
      hide ReadCpu, IdOf;
    }
  }

  lemma LastRecord(store: Store, entries: seq<string>, c: CpuInfo)
    requires entries != []
    ensures var n := |entries| - 1;
      c in ReadCpus(store, entries) <==> c in ReadCpus(store, entries[..n]) || IsRecord(store, entries[n], c)
  {
    hide ReadCpu, IdOf;
  }

  lemma {:induction false} RecordsAre(store: Store, entries: seq<string>, c: CpuInfo)
    ensures c in ReadCpus(store, entries) <==> exists entry :: entry in entries && IsRecord(store, entry, c)
  {
    if entries == [] {
      assert ReadCpus(store, entries) == [];
    } else {
      var n := |entries| - 1;
      RecordsAre(store, entries[..n], c);
      LastRecord(store, entries, c);
      hide ReadCpus, IsRecord;
      assert forall entry :: entry in entries <==> entry in entries[..n] || entry == entries[n];
    }
  }

  /** A refresh that succeeds lists exactly the records of the CPU directories, by increasing id. */
  lemma ListedIff(store: Store, c: CpuInfo)
    requires Discovered(store).Some?
    ensures var listing := store.listing(["sys", "devices", "system", "cpu"]);
      && listing.Some?
      && (c in Discovered(store).value <==> exists entry :: entry in listing.value.names && IsRecord(store, entry, c))
      && multiset(Discovered(store).value) == multiset(ReadCpus(store, listing.value.names))
      && IdsRise(Discovered(store).value)
  {
    var entries := store.listing(CPU_ROOT).value.names;
    RecordsAre(store, entries, c);
    SortOrders(ReadCpus(store, entries));
    hide ReadCpus, SortById, IsRecord, IdsRise;
    assert c in Discovered(store).value <==> multiset(Discovered(store).value)[c] > 0;
    assert c in ReadCpus(store, entries) <==> multiset(ReadCpus(store, entries))[c] > 0;
  }

  /** The entry is a CPU, not said to be offline, whose idle states cannot be listed to their end. */
  ghost predicate Breaks(store: Store, entry: string) {
    && IdOf(entry).Some? && !SaysOffline(store, CpuDir(entry))
    && store.DirExists(CpuDir(entry) + ["cpufreq"]) && store.DirExists(CpuDir(entry) + ["cpuidle"])
    && (store.listing(CpuDir(entry) + ["cpuidle"]).None? || !store.listing(CpuDir(entry) + ["cpuidle"]).value.complete)
  }

  lemma BreaksIff(store: Store, entry: string)
    ensures Stops(store, entry) <==> Breaks(store, entry)
  {
    CpufreqPath(entry, "");
    OnlineIff(store, CpuDir(entry));
    hide SaysOffline, ReadOnline, Store.DirExists, IdOf;
  }

  /**
   * A refresh fails exactly when the CPU directory or the idle states of one CPU in it cannot be listed to their end;
   * it then leaves the records of the entries before the first such CPU.
   */
  lemma RefreshFailsIff(store: Store)
    ensures var listing := store.listing(["sys", "devices", "system", "cpu"]);
      && (Discovered(store).None? <==>
            || listing.None? || !listing.value.complete
            || exists entry :: entry in listing.value.names && Breaks(store, entry))
      && (listing.None? ==> Partial(store) == [])
      && (listing.Some? ==>
            var names := listing.value.names;
            forall k ::
              0 <= k < |names| && Breaks(store, names[k]) && (forall j :: 0 <= j < k ==> !Breaks(store, names[j])) ==>
                Partial(store) == ReadCpus(store, names[..k]))
      && (listing.Some? && (forall entry :: entry in listing.value.names ==> !Breaks(store, entry)) ==>
            Partial(store) == ReadCpus(store, listing.value.names))
  {
    forall entry
      ensures Stops(store, entry) <==> Breaks(store, entry)
    {
      BreaksIff(store, entry);
    }
    hide Stops, Breaks, ReadCpus, SortById;
    var listing := store.listing(CPU_ROOT);
    if listing.Some? {
      var names := listing.value.names;
      var n := Readable(store, names);
      assert n < |names| ==> names[n] in names;
      assert n == |names| ==> names[..n] == names;
      forall k | 0 <= k < |names| && Breaks(store, names[k]) && (forall j :: 0 <= j < k ==> !Breaks(store, names[j]))
        ensures k == n
      {
      }
    }
  }

  // ---- setters, file by file ----

  /** The CPU is online by its files: there is no `online` file, or it reads 1. */
  predicate ReadsOnline(store: Store, dir: Path) {
    var file := dir + ["online"];
    file !in store.files || (store.readable(file) && Trim(store.files[file]) == "1")
  }

  /** The CPU is offline by its files: `online` reads 0. */
  predicate ReadsOffline(store: Store, dir: Path) {
    var file := dir + ["online"];
    file in store.files && store.readable(file) && Trim(store.files[file]) == "0"
  }

  /**
   * set_min_freq on the list a refresh just made: every CPU online by its files whose minimum can be read holds the
   * number and shows it; a CPU that reads 0 keeps its file and its record.
   */
  lemma MinFreqOnFiles(store: Store, khz: nat, i: nat)
    requires Discovered(store).Some? && i < |Discovered(store).value| && khz < 0x1_0000_0000_0000_0000
    requires AllWritten(store, Discovered(store).value, "scaling_min_freq", Decimal(khz))
    ensures var cpus := Discovered(store).value;
      var (after, now, r) := SetStep(store, cpus, "scaling_min_freq", Decimal(khz));
      && r == Done && |now| == |cpus| && cpus[i].sysfsPath.Some?
      && var dir := cpus[i].sysfsPath.value;
      && var file := dir + ["cpufreq", "scaling_min_freq"];
      && (file in store.files && store.readable(file) && ReadsOnline(store, dir) ==>
            now[i] == cpus[i].(minKhz := Some(khz)) && file in after.files && after.files[file] == Decimal(khz))
      && (file in store.files && ReadsOffline(store, dir) ==>
            now[i] == cpus[i] && file in after.files && after.files[file] == store.files[file])
  {
    var cpus := Discovered(store).value;
    MinFreqReadsBack(store, cpus, khz, i);
    FilesSet(store, MIN_FREQ, Decimal(khz), i);
    hide Discovered, SetStep, Decimal, Shows, AllWritten, MIN_FREQ;
  }

  /** set_max_freq, likewise. */
  lemma MaxFreqOnFiles(store: Store, khz: nat, i: nat)
    requires Discovered(store).Some? && i < |Discovered(store).value| && khz < 0x1_0000_0000_0000_0000
    requires AllWritten(store, Discovered(store).value, "scaling_max_freq", Decimal(khz))
    ensures var cpus := Discovered(store).value;
      var (after, now, r) := SetStep(store, cpus, "scaling_max_freq", Decimal(khz));
      && r == Done && |now| == |cpus| && cpus[i].sysfsPath.Some?
      && var dir := cpus[i].sysfsPath.value;
      && var file := dir + ["cpufreq", "scaling_max_freq"];
      && (file in store.files && store.readable(file) && ReadsOnline(store, dir) ==>
            now[i] == cpus[i].(maxKhz := Some(khz)) && file in after.files && after.files[file] == Decimal(khz))
      && (file in store.files && ReadsOffline(store, dir) ==>
            now[i] == cpus[i] && file in after.files && after.files[file] == store.files[file])
  {
    var cpus := Discovered(store).value;
    MaxFreqReadsBack(store, cpus, khz, i);
    FilesSet(store, MAX_FREQ, Decimal(khz), i);
    hide Discovered, SetStep, Decimal, Shows, AllWritten, MAX_FREQ;
  }

  /** set_governor, likewise, for a governor whose name survives printing and parsing. */
  lemma GovernorOnFiles(store: Store, g: Governor, i: nat)
    requires IsLowercasing(store.lowercase) && (g.Unknown? ==> IsPlainName(store.lowercase, g.name))
    requires Discovered(store).Some? && i < |Discovered(store).value|
    requires AllWritten(store, Discovered(store).value, "scaling_governor", PrintGovernor(g))
    ensures var cpus := Discovered(store).value;
      var (after, now, r) := SetStep(store, cpus, "scaling_governor", PrintGovernor(g));
      && r == Done && |now| == |cpus| && cpus[i].sysfsPath.Some?
      && var dir := cpus[i].sysfsPath.value;
      && var file := dir + ["cpufreq", "scaling_governor"];
      && (file in store.files && store.readable(file) && ReadsOnline(store, dir) ==>
            now[i] == cpus[i].(governor := g) && file in after.files && after.files[file] == PrintGovernor(g))
      && (file in store.files && ReadsOffline(store, dir) ==>
            now[i] == cpus[i] && file in after.files && after.files[file] == store.files[file])
  {
    var cpus := Discovered(store).value;
    GovernorReadsBack(store, cpus, g, i);
    FilesSet(store, GOVERNOR, PrintGovernor(g), i);
    hide Discovered, SetStep, PrintGovernor, Shows, AllWritten, GOVERNOR, IsPlainName, IsLowercasing;
  }

  lemma FilesSet(store: Store, leaf: string, text: string, i: nat)
    requires Discovered(store).Some? && i < |Discovered(store).value|
    requires AllWritten(store, Discovered(store).value, leaf, text)
    ensures var cpus := Discovered(store).value;
      var after := SetStep(store, cpus, leaf, text).0;
      && cpus[i].sysfsPath.Some?
      && var dir := cpus[i].sysfsPath.value;
      && var file := dir + ["cpufreq", leaf];
      && (file in store.files && store.readable(file) && ReadsOnline(store, dir) ==>
            Shows(store, cpus, cpus[i], leaf) && file in after.files && after.files[file] == text)
      && (file in store.files && ReadsOffline(store, dir) ==>
            !Shows(store, cpus, cpus[i], leaf) && file in after.files && after.files[file] == store.files[file])
  {
    var cpus := Discovered(store).value;
    MatchingList(store, leaf, i);
    var dir := cpus[i].sysfsPath.value;
    StatesDiffer(store, dir);
    if dir + ["cpufreq", leaf] in store.files {
      OfflineNeverWritten(store, store, leaf, text, dir);
    }
    hide Discovered, SetStep, Shows, AllWritten, ReadsOnline, ReadsOffline, SaysOffline;
    assert IsListed(cpus, dir);
  }

  lemma StatesDiffer(store: Store, dir: Path)
    ensures ReadsOnline(store, dir) ==> !SaysOffline(store, dir)
    ensures ReadsOffline(store, dir) ==> SaysOffline(store, dir)
  {
    hide Trim;
  }
}
