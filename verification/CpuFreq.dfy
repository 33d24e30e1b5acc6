/** cpufreq discovery and setters of src/cpufreq.rs over a file store. */
module CpuFreq {
  import opened FileStore
  import opened Text

  // ---- governors ----

  datatype Governor =
    | Performance
    | Powersave
    | Ondemand
    | Conservative
    | Userspace
    | Schedutil
    | IntelPstate
    | AmdPstate
    | Interactive
    | Unknown(name: string)

  function PrintGovernor(g: Governor): string {
    match g
    case Performance => "performance"
    case Powersave => "powersave"
    case Ondemand => "ondemand"
    case Conservative => "conservative"
    case Userspace => "userspace"
    case Schedutil => "schedutil"
    case IntelPstate => "intel_pstate"
    case AmdPstate => "amd_pstate"
    case Interactive => "interactive"
    case Unknown(s) => s
  }

  function ParseLower(s: string): Governor {
    if s == "performance" then Performance
    else if s == "powersave" then Powersave
    else if s == "ondemand" then Ondemand
    else if s == "conservative" then Conservative
    else if s == "userspace" then Userspace
    else if s == "schedutil" then Schedutil
    else if s == "intel_pstate" then IntelPstate
    else if s == "amd_pstate" || s == "amd-pstate" || s == "amd-pstate-epp" then AmdPstate
    else if s == "interactive" then Interactive
    else Unknown(s)
  }

  function ParseGovernor(lower: string -> string, s: string): Governor {
    ParseLower(lower(s))
  }

  /** A name that reads back unchanged: trimmed, lower case and not the name of a known governor. */
  predicate IsPlainName(lower: string -> string, s: string) {
    Trim(s) == s && lower(s) == s && s !in KNOWN_NAMES
  }

  predicate IsAscii(s: string) {
    forall i :: 0 <= i < |s| ==> s[i] < 128 as char
  }

  /** What is used of Unicode lower-casing: the usual one on ASCII, and no white space put around trimmed text. */
  ghost predicate IsLowercasing(lower: string -> string) {
    && (forall s :: IsAscii(s) ==> lower(s) == Lower(s))
    && forall s :: Trim(s) == s ==> Trim(lower(s)) == lower(s)
  }

  const KNOWN_NAMES: set<string> :=
    {"performance", "powersave", "ondemand", "conservative", "userspace", "schedutil", "intel_pstate",
     "amd_pstate", "amd-pstate", "amd-pstate-epp", "interactive"}

  lemma KnownNames(s: string)
    ensures ParseLower(s).Unknown? <==> s !in KNOWN_NAMES
  {
  }

  lemma LowerKeeps(s: string)
    requires forall i :: 0 <= i < |s| ==> !('A' <= s[i] <= 'Z')
    ensures Lower(s) == s
  {
  }

  lemma KnownNameChars(g: Governor)
    requires !g.Unknown?
    ensures var s := PrintGovernor(g); forall i :: 0 <= i < |s| ==> 'a' <= s[i] <= 'z' || s[i] == '_'
  {
  }

  lemma KnownNameParses(g: Governor)
    requires !g.Unknown?
    ensures ParseLower(PrintGovernor(g)) == g
  {
  }

  lemma KnownNameReads(lower: string -> string, g: Governor)
    requires IsLowercasing(lower) && !g.Unknown?
    ensures Trim(PrintGovernor(g)) == PrintGovernor(g) && ParseGovernor(lower, PrintGovernor(g)) == g
  {
    KnownNameChars(g);
    KnownNameParses(g);
    hide PrintGovernor, ParseLower;
    TrimNoSpace(PrintGovernor(g));
    LowerKeeps(PrintGovernor(g));
    hide Trim, Lower;
    assert IsAscii(PrintGovernor(g));
  }

  /**
   * Writing a governor and reading it back gives the same one exactly for the known ones and for plain unknown names.
   */
  lemma GovernorRoundTrip(lower: string -> string, g: Governor)
    requires IsLowercasing(lower)
    ensures ParseGovernor(lower, Trim(PrintGovernor(g))) == g <==> (g.Unknown? ==> IsPlainName(lower, g.name))
  {
    if g.Unknown? {
      var t := Trim(g.name);
      UnknownMeans(lower(t));
      UnknownMeans(g.name);
      KnownNames(lower(t));
      KnownNames(g.name);
      TrimTwice(g.name);
      hide Trim, Lower, ParseLower, KNOWN_NAMES;
      if ParseGovernor(lower, t) == g {
        assert lower(t) == g.name;
        assert Trim(lower(t)) == lower(t);
      }
    } else {
      KnownNameReads(lower, g);
    }
  }

  lemma UnknownMeans(s: string)
    ensures ParseLower(s).Unknown? ==> ParseLower(s).name == s
  {
  }

  // ---- discovery ----

  datatype CpuInfo = CpuInfo(
    id: nat,
    online: Option<bool>,
    currentKhz: Option<nat>,
    currentMhz: Option<nat>,
    minKhz: Option<nat>,
    maxKhz: Option<nat>,
    governor: Governor,
    sysfsPath: Option<Path>)

  const CPU_ROOT: Path := ["sys", "devices", "system", "cpu"]

  /** The id in a directory name such as cpu12, or nothing for cpufreq, cpuidle and the like. */
  function IdOf(entry: string): Option<nat> {
    if |entry| >= 3 && entry[..3] == "cpu" then ParseUnsigned(entry[3..], 10, U32) else None
  }

  function ReadOnline(store: Store, dir: Path): Option<bool> {
    if dir + ["online"] in store.files then
      match store.Read(dir + ["online"])
      case None => None
      case Some(s) => Some(Trim(s) == "1")
    else Some(true)
  }

  /** The files say that the CPU is offline: its `online` file can be read and says something other than 1. */
  predicate SaysOffline(store: Store, dir: Path) {
    var file := dir + ["online"];
    file in store.files && store.readable(file) && Trim(store.files[file]) != "1"
  }

  /**
   * The online state of a directory from the text of its file: online without a file or with the text 1, offline with
   * any other text, unknown when the file cannot be read.
   */
  lemma OnlineIff(store: Store, dir: Path)
    ensures var file := dir + ["online"];
      && (ReadOnline(store, dir) == Some(true) <==>
            file !in store.files || (store.readable(file) && Trim(store.files[file]) == "1"))
      && (ReadOnline(store, dir) == Some(false) <==> SaysOffline(store, dir))
      && (ReadOnline(store, dir) == None <==> file in store.files && !store.readable(file))
  {
    hide Trim;
  }

  function FreqFile(dir: Path, leaf: string): Path {
    dir + ["cpufreq", leaf]
  }

  const MIN_FREQ: string := "scaling_min_freq"
  const MAX_FREQ: string := "scaling_max_freq"
  const GOVERNOR: string := "scaling_governor"
  const CUR_FREQ: string := "scaling_cur_freq"

  /** A float-free u32 cast keeps the low 32 bits. */
  function ToMhz(khz: nat): nat {
    (khz / 1000) % U32
  }

  const UNREAD: Governor := Unknown("unknown")

  ghost function ReadCpu(store: Store, entry: string, id: nat): CpuInfo {
    var dir := CPU_ROOT + [entry];
    var online := ReadOnline(store, dir);
    if online == Some(false) || !store.DirExists(dir + ["cpufreq"]) then
      CpuInfo(id, online, None, None, None, None, UNREAD, Some(dir))
    else
      var current := store.ReadNumber(FreqFile(dir, CUR_FREQ), U64);
      CpuInfo(id, online, current,
              match current case None => None case Some(f) => Some(ToMhz(f)),
              store.ReadNumber(FreqFile(dir, MIN_FREQ), U64),
              store.ReadNumber(FreqFile(dir, MAX_FREQ), U64),
              match store.Read(FreqFile(dir, GOVERNOR))
              case None => UNREAD
              case Some(s) => ParseGovernor(store.lowercase, Trim(s)),
              Some(dir))
  }

  ghost function ReadCpus(store: Store, entries: seq<string>): seq<CpuInfo> {
    if entries == [] then []
    else
      var n := |entries| - 1;
      var id := IdOf(entries[n]);
      ReadCpus(store, entries[..n]) + (if id.Some? then [ReadCpu(store, entries[n], id.value)] else [])
  }

  /** The directory can be listed to its end. */
  predicate Listed(store: Store, dir: Path) {
    store.listing(dir).Some? && store.listing(dir).value.complete
  }

  /** The entry ends a refresh: a CPU that is not offline, with a cpuidle directory that cannot be listed to its end. */
  ghost predicate Stops(store: Store, entry: string) {
    var dir := CPU_ROOT + [entry];
    && IdOf(entry).Some?
    && ReadOnline(store, dir) != Some(false)
    && store.DirExists(dir + ["cpufreq"])
    && store.DirExists(dir + ["cpuidle"])
    && !Listed(store, dir + ["cpuidle"])
  }

  /** How many entries are read before one ends the refresh. */
  ghost function Readable(store: Store, entries: seq<string>): (n: nat)
    ensures n <= |entries|
    ensures forall i :: 0 <= i < n ==> !Stops(store, entries[i])
    ensures n < |entries| ==> Stops(store, entries[n])
  {
    if entries == [] || Stops(store, entries[0]) then 0 else 1 + Readable(store, entries[1..])
  }

  /** Insertion that keeps the earlier of two equal ids first. */
  function InsertById(cpus: seq<CpuInfo>, c: CpuInfo): seq<CpuInfo> {
    if cpus == [] || cpus[|cpus| - 1].id <= c.id then cpus + [c]
    else InsertById(cpus[..|cpus| - 1], c) + [cpus[|cpus| - 1]]
  }

  /** The stable sort by id. */
  function SortById(cpus: seq<CpuInfo>): seq<CpuInfo> {
    if cpus == [] then [] else InsertById(SortById(cpus[..|cpus| - 1]), cpus[|cpus| - 1])
  }

  lemma ReadableIs(store: Store, entries: seq<string>, e: nat)
    requires e <= |entries| && forall i :: 0 <= i < e ==> !Stops(store, entries[i])
    requires e == |entries| || Stops(store, entries[e])
    ensures Readable(store, entries) == e
  {
    hide Stops;
  }

  lemma OtherEntries(store: Store, entry: string)
    ensures IdOf(entry).None? ==> !Stops(store, entry)
  {
  }

  /** The list a refresh makes, or nothing when the CPU directory or a cpuidle directory cannot be listed to its end. */
  ghost function Discovered(store: Store): Option<seq<CpuInfo>> {
    match store.listing(CPU_ROOT)
    case None => None
    case Some(entries) =>
      if Readable(store, entries.names) < |entries.names| || !entries.complete then None
      else Some(SortById(ReadCpus(store, entries.names)))
  }

  /** What a failed refresh leaves: the CPUs read so far, unsorted. */
  ghost function Partial(store: Store): seq<CpuInfo> {
    match store.listing(CPU_ROOT)
    case None => []
    case Some(entries) => ReadCpus(store, entries.names[..Readable(store, entries.names)])
  }

  // ---- writes ----

  /** The file a setter writes for this CPU: none when it is known offline or has no such file. */
  function Target(store: Store, cpu: CpuInfo, leaf: string): Option<Path> {
    if cpu.online == Some(false) || cpu.sysfsPath.None? then None
    else
      var file := FreqFile(cpu.sysfsPath.value, leaf);
      if file in store.files then Some(file) else None
  }

  /** The write loop over cpus[k..]: the store it leaves and the CPU it failed at, if any. */
  ghost function WriteFrom(store: Store, cpus: seq<CpuInfo>, leaf: string, text: string, k: nat): (Store, Option<nat>)
    requires k <= |cpus|
    decreases |cpus| - k
  {
    if k == |cpus| then (store, None)
    else
      match Target(store, cpus[k], leaf)
      case None => WriteFrom(store, cpus, leaf, text, k + 1)
      case Some(file) =>
        if store.accepts(file, text) then WriteFrom(store.Written(file, text), cpus, leaf, text, k + 1)
        else (store, Some(k))
  }

  datatype Outcome = Done | Failed

  /**
   * A setter: write every CPU's file, then read everything back. A failed write keeps the list, a failed refresh cuts
   * it short.
   */
  ghost function SetStep(store: Store, cpus: seq<CpuInfo>, leaf: string, text: string): (Store, seq<CpuInfo>, Outcome) {
    var (after, failedAt) := WriteFrom(store, cpus, leaf, text, 0);
    if failedAt.Some? then (after, cpus, Failed)
    else
      match Discovered(after)
      case None => (after, Partial(after), Failed)
      case Some(now) => (after, now, Done)
  }

  /** No write of the setter is refused, for this list and these files. */
  ghost predicate AllWritten(store: Store, cpus: seq<CpuInfo>, leaf: string, text: string) {
    WriteFrom(store, cpus, leaf, text, 0).1 == None
  }

  class CpuFreqMonitor {
    const fs: Sysfs
    var cpus: seq<CpuInfo>

    constructor (fs: Sysfs)
      ensures this.fs == fs && cpus == []
    {
      this.fs := fs;
      cpus := [];
    }

    /** Clear and read everything again, up to the first directory that cannot be listed to its end. */
    method Refresh() returns (r: Outcome)
      modifies this`cpus
      ensures r == (if Discovered(fs.store).Some? then Done else Failed)
      ensures cpus == if Discovered(fs.store).Some? then Discovered(fs.store).value else Partial(fs.store)
    {
      hide Stops, ReadCpu, IdOf, Readable, SortById;
      cpus := [];
      var listing := fs.store.listing(CPU_ROOT);
      if listing.None? {
        return Failed;
      }
      var entries := listing.value.names;
      for e := 0 to |entries|
        invariant cpus == ReadCpus(fs.store, entries[..e])
        invariant forall i :: 0 <= i < e ==> !Stops(fs.store, entries[i])
      {
        assert entries[..e + 1][..e] == entries[..e];
        var id := IdOf(entries[e]);
        OtherEntries(fs.store, entries[e]);
        if id.None? {
          continue;
        }
        var cpu, ok := DiscoverCpu(entries[e], id.value);
        if !ok {
          ReadableIs(fs.store, entries, e);
          return Failed;
        }
        cpus := cpus + [cpu];
      }
      assert entries[..|entries|] == entries;
      ReadableIs(fs.store, entries, |entries|);
      if !listing.value.complete {
        return Failed;
      }
      cpus := SortById(cpus);
      r := Done;
    }

    method DiscoverCpu(entry: string, id: nat) returns (cpu: CpuInfo, ok: bool)
      requires IdOf(entry) == Some(id)
      ensures ok <==> !Stops(fs.store, entry)
      ensures cpu == ReadCpu(fs.store, entry, id)
    {
      var dir := CPU_ROOT + [entry];
      ok := true;
      cpu := CpuInfo(id, None, None, None, None, None, UNREAD, Some(dir));
      cpu := cpu.(online := ReadOnline(fs.store, dir));
      if cpu.online == Some(false) {
        return;
      }
      if !fs.store.DirExists(dir + ["cpufreq"]) {
        return;
      }
      var current := fs.store.ReadNumber(FreqFile(dir, CUR_FREQ), U64);
      if current.Some? {
        cpu := cpu.(currentKhz := current, currentMhz := Some(ToMhz(current.value)));
      }
      cpu := cpu.(minKhz := fs.store.ReadNumber(FreqFile(dir, MIN_FREQ), U64));
      cpu := cpu.(maxKhz := fs.store.ReadNumber(FreqFile(dir, MAX_FREQ), U64));
      var governor := fs.store.Read(FreqFile(dir, GOVERNOR));
      if governor.Some? {
        cpu := cpu.(governor := ParseGovernor(fs.store.lowercase, Trim(governor.value)));
      }
      if fs.store.DirExists(dir + ["cpuidle"]) {
        ok := Listed(fs.store, dir + ["cpuidle"]);
      }
    }

    method WriteAll(leaf: string, text: string) returns (r: Outcome, ghost failedAt: Option<nat>)
      modifies fs
      ensures (fs.store, failedAt) == WriteFrom(old(fs.store), cpus, leaf, text, 0)
      ensures r == if failedAt.None? then Done else Failed
    {
      failedAt := None;
      for k := 0 to |cpus|
        invariant WriteFrom(fs.store, cpus, leaf, text, k) == WriteFrom(old(fs.store), cpus, leaf, text, 0)
        invariant failedAt == None
      {
        if cpus[k].online == Some(false) {
          continue;
        }
        if cpus[k].sysfsPath.Some? {
          var file := FreqFile(cpus[k].sysfsPath.value, leaf);
          if file in fs.store.files {
            var ok := fs.Write(file, text);
            if !ok {
              failedAt := Some(k);
              return Failed, failedAt;
            }
          }
        }
      }
      r := Done;
    }

    method SetAll(leaf: string, text: string) returns (r: Outcome)
      modifies this`cpus, fs
      ensures (fs.store, cpus, r) == SetStep(old(fs.store), old(cpus), leaf, text)
    {
      ghost var failedAt;
      r, failedAt := WriteAll(leaf, text);
      if r == Failed {
        return;
      }
      r := Refresh();
    }

    method SetMinFreq(khz: nat) returns (r: Outcome)
      requires khz < U64
      modifies this`cpus, fs
      ensures (fs.store, cpus, r) == SetStep(old(fs.store), old(cpus), MIN_FREQ, Decimal(khz))
    {
      r := SetAll(MIN_FREQ, Decimal(khz));
    }

    method SetMaxFreq(khz: nat) returns (r: Outcome)
      requires khz < U64
      modifies this`cpus, fs
      ensures (fs.store, cpus, r) == SetStep(old(fs.store), old(cpus), MAX_FREQ, Decimal(khz))
    {
      r := SetAll(MAX_FREQ, Decimal(khz));
    }

    method SetGovernor(governor: Governor) returns (r: Outcome)
      modifies this`cpus, fs
      ensures (fs.store, cpus, r) == SetStep(old(fs.store), old(cpus), GOVERNOR, PrintGovernor(governor))
    {
      r := SetAll(GOVERNOR, PrintGovernor(governor));
    }
  }

  // ---- what a setter does to the files ----

  /** The CPU among cpus[from..to] whose target is this path. */
  predicate IsTarget(store: Store, cpus: seq<CpuInfo>, leaf: string, from: nat, to: nat, path: Path)
    requires to <= |cpus|
  {
    exists j :: from <= j < to && Target(store, cpus[j], leaf) == Some(path)
  }

  /**
   * Exactly the targets of cpus[from..to] hold the text; every other file, and what can be read or written, is as
   * before.
   */
  ghost predicate Overwritten(before: Store, after: Store, cpus: seq<CpuInfo>, leaf: string, text: string,
                              from: nat, to: nat)
    requires to <= |cpus|
  {
    && after == before.(files := after.files)
    && after.files.Keys == before.files.Keys
    && forall p :: p in before.files ==>
         after.files[p] == if IsTarget(before, cpus, leaf, from, to, p) then text else before.files[p]
  }

  /**
   * A setter succeeds exactly when every target takes the text, and then all targets hold it; otherwise it
   * stops at the first CPU whose write fails, with exactly the targets before it changed.
   */
  lemma {:induction false} WriteEffect(store: Store, cpus: seq<CpuInfo>, leaf: string, text: string, k: nat)
    requires k <= |cpus|
    ensures var (after, failedAt) := WriteFrom(store, cpus, leaf, text, k);
      && (failedAt.None? <==>
            forall j :: k <= j < |cpus| && Target(store, cpus[j], leaf).Some? ==>
              store.accepts(Target(store, cpus[j], leaf).value, text))
      && (failedAt.None? ==> Overwritten(store, after, cpus, leaf, text, k, |cpus|))
      && (failedAt.Some? ==>
            && k <= failedAt.value < |cpus|
            && Overwritten(store, after, cpus, leaf, text, k, failedAt.value)
            && Target(store, cpus[failedAt.value], leaf).Some?
            && !store.accepts(Target(store, cpus[failedAt.value], leaf).value, text))
    decreases |cpus| - k
  {
    hide Target, Overwritten, FreqFile;
    if k == |cpus| {
      OverwrittenNone(store, cpus, leaf, text);
    } else {
      var target := Target(store, cpus[k], leaf);
      if target.None? {
        WriteEffect(store, cpus, leaf, text, k + 1);
        var (after, failedAt) := WriteFrom(store, cpus, leaf, text, k + 1);
        OverwrittenSkip(store, after, cpus, leaf, text, k, if failedAt.None? then |cpus| else failedAt.value);
      } else if store.accepts(target.value, text) {
        var next := store.Written(target.value, text);
        TargetKeeps(store, next, cpus[k], leaf, text);
        WriteEffect(next, cpus, leaf, text, k + 1);
        SameTargets(store, next, cpus, leaf);
        var (after, failedAt) := WriteFrom(next, cpus, leaf, text, k + 1);
        OverwrittenStep(store, next, after, cpus, leaf, text, k, if failedAt.None? then |cpus| else failedAt.value);
      } else {
        OverwrittenEmpty(store, cpus, leaf, text, k);
      }
    }
  }

  lemma OverwrittenNone(store: Store, cpus: seq<CpuInfo>, leaf: string, text: string)
    ensures Overwritten(store, store, cpus, leaf, text, |cpus|, |cpus|)
  {
  }

  lemma OverwrittenEmpty(store: Store, cpus: seq<CpuInfo>, leaf: string, text: string, k: nat)
    requires k < |cpus|
    ensures Overwritten(store, store, cpus, leaf, text, k, k)
  {
  }

  lemma TargetKeeps(store: Store, next: Store, cpu: CpuInfo, leaf: string, text: string)
    requires Target(store, cpu, leaf).Some? && next == store.Written(Target(store, cpu, leaf).value, text)
    ensures next.files.Keys == store.files.Keys && next.accepts == store.accepts
  {
  }

  lemma OverwrittenSkip(store: Store, after: Store, cpus: seq<CpuInfo>, leaf: string, text: string, k: nat, to: nat)
    requires k < to <= |cpus| && Target(store, cpus[k], leaf).None?
    requires Overwritten(store, after, cpus, leaf, text, k + 1, to)
    ensures Overwritten(store, after, cpus, leaf, text, k, to)
  {
    ExtendTargets(store, cpus, leaf, k);
    hide Target, IsTarget;
  }

  lemma OverwrittenStep(store: Store, next: Store, after: Store, cpus: seq<CpuInfo>, leaf: string, text: string,
                        k: nat, to: nat)
    requires k < to <= |cpus| && Target(store, cpus[k], leaf).Some?
    requires next == store.Written(Target(store, cpus[k], leaf).value, text)
    requires next.files.Keys == store.files.Keys
    requires Overwritten(next, after, cpus, leaf, text, k + 1, to)
    ensures Overwritten(store, after, cpus, leaf, text, k, to)
  {
    SameTargets(store, next, cpus, leaf);
    ExtendTargets(store, cpus, leaf, k);
    hide Target;
    forall p | p in store.files
      ensures after.files[p] == if IsTarget(store, cpus, leaf, k, to, p) then text else store.files[p]
    {
      assert p in next.files.Keys;
      assert IsTarget(next, cpus, leaf, k + 1, to, p) <==> IsTarget(store, cpus, leaf, k + 1, to, p);
    }
  }

  lemma SameTargets(store: Store, next: Store, cpus: seq<CpuInfo>, leaf: string)
    requires next.files.Keys == store.files.Keys
    ensures forall j :: 0 <= j < |cpus| ==> Target(next, cpus[j], leaf) == Target(store, cpus[j], leaf)
  {
    forall j | 0 <= j < |cpus|
      ensures Target(next, cpus[j], leaf) == Target(store, cpus[j], leaf)
    {
      var file := if cpus[j].sysfsPath.Some? then FreqFile(cpus[j].sysfsPath.value, leaf) else [];
      assert file in next.files.Keys <==> file in store.files.Keys;
    }
  }

  lemma ExtendTargets(store: Store, cpus: seq<CpuInfo>, leaf: string, k: nat)
    requires k < |cpus|
    ensures forall p, to :: k < to <= |cpus| ==>
      (IsTarget(store, cpus, leaf, k, to, p) <==>
         IsTarget(store, cpus, leaf, k + 1, to, p) || Target(store, cpus[k], leaf) == Some(p))
  {
    hide Target;
    forall p, to | k < to <= |cpus|
      ensures IsTarget(store, cpus, leaf, k, to, p) <==>
        IsTarget(store, cpus, leaf, k + 1, to, p) || Target(store, cpus[k], leaf) == Some(p)
    {
    }
  }

  lemma SameFile(a: Path, b: Path, leaf: string)
    ensures FreqFile(a, leaf) == FreqFile(b, leaf) ==> a == b
  {
    assert FreqFile(a, leaf)[..|FreqFile(a, leaf)| - 2] == a && FreqFile(b, leaf)[..|FreqFile(b, leaf)| - 2] == b;
  }

  lemma OtherFileKept(store: Store, cpus: seq<CpuInfo>, leaf: string, text: string, file: Path)
    requires file in store.files && forall j :: 0 <= j < |cpus| ==> Target(store, cpus[j], leaf) != Some(file)
    ensures var after := WriteFrom(store, cpus, leaf, text, 0).0;
      file in after.files && after.files[file] == store.files[file]
  {
    WriteEffect(store, cpus, leaf, text, 0);
    hide WriteFrom, Target;
    assert file in store.files.Keys;
  }

  lemma TargetGetsText(store: Store, cpus: seq<CpuInfo>, leaf: string, text: string, i: nat)
    requires i < |cpus| && Target(store, cpus[i], leaf).Some? && AllWritten(store, cpus, leaf, text)
    ensures var file, after := Target(store, cpus[i], leaf).value, WriteFrom(store, cpus, leaf, text, 0).0;
      file in after.files && after.files[file] == text
  {
    WriteEffect(store, cpus, leaf, text, 0);
    var file := Target(store, cpus[i], leaf).value;
    assert file in store.files.Keys;
    hide WriteFrom, Target;
    assert IsTarget(store, cpus, leaf, 0, |cpus|, file);
  }

  /**
   * The file of a CPU known to be offline never changes, unless another record claims its directory without being
   * offline.
   */
  lemma OfflineUntouched(store: Store, cpus: seq<CpuInfo>, leaf: string, text: string, i: nat)
    requires i < |cpus| && cpus[i].online == Some(false) && cpus[i].sysfsPath.Some?
    requires forall j :: 0 <= j < |cpus| && cpus[j].sysfsPath == cpus[i].sysfsPath ==> cpus[j].online == Some(false)
    requires FreqFile(cpus[i].sysfsPath.value, leaf) in store.files
    ensures var file := FreqFile(cpus[i].sysfsPath.value, leaf);
      var after := WriteFrom(store, cpus, leaf, text, 0).0;
      file in after.files && after.files[file] == store.files[file]
  {
    var dir := cpus[i].sysfsPath.value;
    var file := FreqFile(dir, leaf);
    forall j | 0 <= j < |cpus|
      ensures Target(store, cpus[j], leaf) != Some(file)
    {
      if cpus[j].sysfsPath.Some? {
        SameFile(cpus[j].sysfsPath.value, dir, leaf);
      }
    }
    OtherFileKept(store, cpus, leaf, text, file);
  }

  lemma {:induction false} ReadFromDirs(store: Store, entries: seq<string>)
    ensures forall c :: c in ReadCpus(store, entries) ==>
      c.sysfsPath.Some? && c.online == ReadOnline(store, c.sysfsPath.value)
  {
    if entries == [] {
    } else {
      ReadFromDirs(store, entries[..|entries| - 1]);
    }
  }

  lemma ListedFromDirs(store: Store)
    requires Discovered(store).Some?
    ensures forall c :: c in Discovered(store).value ==>
      c.sysfsPath.Some? && c.online == ReadOnline(store, c.sysfsPath.value)
  {
    var entries, cpus := store.listing(CPU_ROOT).value.names, Discovered(store).value;
    var read := ReadCpus(store, entries);
    ReadFromDirs(store, entries);
    SortMembers(read);
    hide ReadCpus, ReadOnline, SortById, Discovered;
    forall c | c in cpus
      ensures c in read
    {
      assert multiset(cpus)[c] > 0;
    }
  }

  lemma OfflineIsNoTarget(before: Store, now: Store, leaf: string, dir: Path, i: nat)
    requires Discovered(before).Some? && i < |Discovered(before).value|
    ensures var c, file := Discovered(before).value[i], dir + ["cpufreq", leaf];
      && (SaysOffline(before, dir) ==> Target(now, c, leaf) != Some(file))
      && (!SaysOffline(before, dir) && c.sysfsPath == Some(dir) && file in now.files ==>
            Target(now, c, leaf) == Some(file))
  {
    var c := Discovered(before).value[i];
    ListedFromDirs(before);
    assert c in Discovered(before).value;
    OnlineIff(before, dir);
    hide Discovered, ReadOnline, SaysOffline;
    SameFile(c.sysfsPath.value, dir, leaf);
  }

  /** The list has a record of this directory. */
  predicate IsListed(cpus: seq<CpuInfo>, dir: Path) {
    exists i :: 0 <= i < |cpus| && cpus[i].sysfsPath == Some(dir)
  }

  /**
   * What a setter does to the files, on a list that a refresh made of other files, maybe long before: a CPU whose
   * directory said offline then keeps its file, whatever happens; if every write is taken, every other CPU of the list
   * that has the file gets the text.
   */
  lemma OfflineNeverWritten(before: Store, now: Store, leaf: string, text: string, dir: Path)
    requires Discovered(before).Some? && dir + ["cpufreq", leaf] in now.files
    ensures var cpus, file := Discovered(before).value, dir + ["cpufreq", leaf];
      var after := SetStep(now, cpus, leaf, text).0;
      && (SaysOffline(before, dir) ==> file in after.files && after.files[file] == now.files[file])
      && (!SaysOffline(before, dir) && AllWritten(now, cpus, leaf, text) && IsListed(cpus, dir) ==>
            file in after.files && after.files[file] == text)
  {
    var cpus, file := Discovered(before).value, dir + ["cpufreq", leaf];
    hide Discovered, SaysOffline, WriteFrom, Target, AllWritten;
    if SaysOffline(before, dir) {
      forall j | 0 <= j < |cpus|
        ensures Target(now, cpus[j], leaf) != Some(file)
      {
        OfflineIsNoTarget(before, now, leaf, dir, j);
      }
      OtherFileKept(now, cpus, leaf, text, file);
    } else if i :| 0 <= i < |cpus| && cpus[i].sysfsPath == Some(dir) {
      OfflineIsNoTarget(before, now, leaf, dir, i);
      if AllWritten(now, cpus, leaf, text) {
        TargetGetsText(now, cpus, leaf, text, i);
      }
    }
  }

  // ---- what the refresh reads back ----

  predicate IsLeaf(leaf: string) {
    leaf == MIN_FREQ || leaf == MAX_FREQ || leaf == GOVERNOR
  }

  /** The record with the field of `leaf` as read from this text. */
  function WithText(store: Store, c: CpuInfo, leaf: string, text: string): CpuInfo {
    if leaf == MIN_FREQ then c.(minKhz := ParseUnsigned(Trim(text), 10, U64))
    else if leaf == MAX_FREQ then c.(maxKhz := ParseUnsigned(Trim(text), 10, U64))
    else c.(governor := ParseGovernor(store.lowercase, Trim(text)))
  }

  /**
   * What a refresh reports for a CPU after cpus were all written to: its record as it would have been before, with the
   * written field if its file was one of those written and can be read.
   */
  ghost function Reread(store: Store, cpus: seq<CpuInfo>, c: CpuInfo, leaf: string, text: string): CpuInfo {
    if c.online != Some(false) && c.sysfsPath.Some?
       && WasWritten(store, cpus, leaf, FreqFile(c.sysfsPath.value, leaf)) then
      WithText(store, c, leaf, text)
    else c
  }

  /** The file is the target of some CPU of the list, and can be read. */
  ghost predicate WasWritten(store: Store, cpus: seq<CpuInfo>, leaf: string, file: Path) {
    IsTarget(store, cpus, leaf, 0, |cpus|, file) && store.readable(file)
  }

  ghost function RereadAll(store: Store, cpus: seq<CpuInfo>, seen: seq<CpuInfo>, leaf: string, text: string)
    : (r: seq<CpuInfo>)
    ensures |r| == |seen| && forall i :: 0 <= i < |r| ==> r[i] == Reread(store, cpus, seen[i], leaf, text)
  {
    seq(|seen|, i requires 0 <= i < |seen| => Reread(store, cpus, seen[i], leaf, text))
  }

  lemma {:induction false} InsertCommutes(store: Store, cpus: seq<CpuInfo>, seen: seq<CpuInfo>, c: CpuInfo,
                                          leaf: string, text: string)
    ensures RereadAll(store, cpus, InsertById(seen, c), leaf, text)
            == InsertById(RereadAll(store, cpus, seen, leaf, text), Reread(store, cpus, c, leaf, text))
  {
    hide WasWritten;
    var r := RereadAll(store, cpus, seen, leaf, text);
    if seen == [] || seen[|seen| - 1].id <= c.id {
    } else {
      var n := |seen| - 1;
      InsertCommutes(store, cpus, seen[..n], c, leaf, text);
      assert r[..n] == RereadAll(store, cpus, seen[..n], leaf, text);
    }
  }

  lemma {:induction false} SortCommutes(store: Store, cpus: seq<CpuInfo>, seen: seq<CpuInfo>,
                                        leaf: string, text: string)
    ensures RereadAll(store, cpus, SortById(seen), leaf, text) == SortById(RereadAll(store, cpus, seen, leaf, text))
  {
    hide Reread;
    if seen == [] {
    } else {
      var n := |seen| - 1;
      SortCommutes(store, cpus, seen[..n], leaf, text);
      InsertCommutes(store, cpus, SortById(seen[..n]), seen[n], leaf, text);
      assert RereadAll(store, cpus, seen, leaf, text)[..n] == RereadAll(store, cpus, seen[..n], leaf, text);
    }
  }

  lemma {:induction false} InsertMembers(cpus: seq<CpuInfo>, c: CpuInfo)
    ensures multiset(InsertById(cpus, c)) == multiset(cpus) + multiset{c}
  {
    if cpus == [] || cpus[|cpus| - 1].id <= c.id {
    } else {
      var n := |cpus| - 1;
      InsertMembers(cpus[..n], c);
      assert cpus == cpus[..n] + [cpus[n]];
    }
  }

  /** Sorting keeps every record. */
  lemma {:induction false} SortMembers(cpus: seq<CpuInfo>)
    ensures multiset(SortById(cpus)) == multiset(cpus)
  {
    if cpus == [] {
    } else {
      var front, last := cpus[..|cpus| - 1], cpus[|cpus| - 1];
      assert SortById(cpus) == InsertById(SortById(front), last);
      hide SortById, InsertById;
      SortMembers(front);
      InsertMembers(SortById(front), last);
      assert cpus == front + [last];
    }
  }

  predicate IdsRise(cpus: seq<CpuInfo>) {
    forall i, j :: 0 <= i <= j < |cpus| ==> cpus[i].id <= cpus[j].id
  }

  lemma {:induction false} InsertOrders(cpus: seq<CpuInfo>, c: CpuInfo)
    requires IdsRise(cpus)
    ensures IdsRise(InsertById(cpus, c))
    ensures forall x :: x in InsertById(cpus, c) ==> x in cpus || x == c
  {
    if cpus == [] || cpus[|cpus| - 1].id <= c.id {
    } else {
      var front, last := cpus[..|cpus| - 1], cpus[|cpus| - 1];
      InsertOrders(front, c);
      var s := InsertById(front, c);
      forall i | 0 <= i < |s|
        ensures s[i].id <= last.id
      {
        assert s[i] in s;
      }
      assert InsertById(cpus, c) == s + [last];
    }
  }

  /** A refresh lists exactly the CPU directories that were read, by increasing id. */
  lemma {:induction false} SortOrders(cpus: seq<CpuInfo>)
    ensures IdsRise(SortById(cpus)) && multiset(SortById(cpus)) == multiset(cpus)
  {
    SortMembers(cpus);
    if cpus == [] {
    } else {
      SortOrders(cpus[..|cpus| - 1]);
      InsertOrders(SortById(cpus[..|cpus| - 1]), cpus[|cpus| - 1]);
    }
  }

  lemma TargetEnds(store: Store, cpu: CpuInfo, leaf: string)
    ensures var t := Target(store, cpu, leaf); t.Some? ==> t.value != [] && t.value[|t.value| - 1] == leaf
  {
  }

  /** A file whose name is not `leaf` is no target. */
  lemma OtherFilesKept(store: Store, after: Store, cpus: seq<CpuInfo>, leaf: string, text: string, path: Path)
    requires Overwritten(store, after, cpus, leaf, text, 0, |cpus|)
    requires path != [] && path[|path| - 1] != leaf
    ensures after.Read(path) == store.Read(path)
  {
    assert path in store.files.Keys <==> path in after.files.Keys;
    forall j | 0 <= j < |cpus|
      ensures Target(store, cpus[j], leaf) != Some(path)
    {
      TargetEnds(store, cpus[j], leaf);
    }
  }

  lemma LeavesDiffer()
    ensures MIN_FREQ != MAX_FREQ && MIN_FREQ != GOVERNOR && MAX_FREQ != GOVERNOR
    ensures forall leaf :: IsLeaf(leaf) ==> leaf != "online" && leaf != CUR_FREQ
  {
    assert |MIN_FREQ| == 16 && |GOVERNOR| == 16 && |CUR_FREQ| == 16 && |"online"| == 6;
    assert MIN_FREQ[9] == 'i' && MAX_FREQ[9] == 'a' && GOVERNOR[9] == 'o' && CUR_FREQ[9] == 'u';
  }

  lemma SameDirs(store: Store, after: Store, dir: Path)
    requires after.files.Keys == store.files.Keys
    ensures after.DirExists(dir) == store.DirExists(dir)
  {
    assert forall p :: p in after.files.Keys <==> p in store.files.Keys;
  }

  /** A file called `leaf` reads as the text exactly when it was written and can be read. */
  lemma OwnFile(store: Store, after: Store, cpus: seq<CpuInfo>, leaf: string, text: string, file: Path)
    requires Overwritten(store, after, cpus, leaf, text, 0, |cpus|)
    ensures after.Read(file) == if WasWritten(store, cpus, leaf, file) then Some(text) else store.Read(file)
  {
    assert file in store.files.Keys <==> file in after.files.Keys;
  }

  lemma TargetInDir(store: Store, cpus: seq<CpuInfo>, leaf: string, dir: Path)
    requires WasWritten(store, cpus, leaf, FreqFile(dir, leaf))
    ensures store.DirExists(dir + ["cpufreq"])
  {
    assert dir + ["cpufreq"] < FreqFile(dir, leaf);
  }

  lemma CpuRereads(store: Store, after: Store, cpus: seq<CpuInfo>, leaf: string, text: string, entry: string, id: nat)
    requires IsLeaf(leaf) && Overwritten(store, after, cpus, leaf, text, 0, |cpus|)
    ensures ReadCpu(after, entry, id) == Reread(store, cpus, ReadCpu(store, entry, id), leaf, text)
  {
    LeavesDiffer();
    hide MIN_FREQ, MAX_FREQ, GOVERNOR, CUR_FREQ, ParseGovernor, ParseUnsigned, Trim;
    var dir := CPU_ROOT + [entry];
    OtherFilesKept(store, after, cpus, leaf, text, dir + ["online"]);
    OtherFilesKept(store, after, cpus, leaf, text, FreqFile(dir, CUR_FREQ));
    forall l | IsLeaf(l) && l != leaf
      ensures after.Read(FreqFile(dir, l)) == store.Read(FreqFile(dir, l))
    {
      OtherFilesKept(store, after, cpus, leaf, text, FreqFile(dir, l));
    }
    SameDirs(store, after, dir + ["cpufreq"]);
    OwnFile(store, after, cpus, leaf, text, FreqFile(dir, leaf));
    if WasWritten(store, cpus, leaf, FreqFile(dir, leaf)) {
      TargetInDir(store, cpus, leaf, dir);
    }
    OnlineKept(store, after, cpus, leaf, text, dir);
    hide Overwritten, WasWritten, ReadOnline, FreqFile;
  }

  lemma OnlineKept(store: Store, after: Store, cpus: seq<CpuInfo>, leaf: string, text: string, dir: Path)
    requires IsLeaf(leaf) && Overwritten(store, after, cpus, leaf, text, 0, |cpus|)
    ensures ReadOnline(after, dir) == ReadOnline(store, dir)
  {
    LeavesDiffer();
    hide MIN_FREQ, MAX_FREQ, GOVERNOR, CUR_FREQ, Trim;
    OtherFilesKept(store, after, cpus, leaf, text, dir + ["online"]);
    assert dir + ["online"] in store.files.Keys <==> dir + ["online"] in after.files.Keys;
  }

  lemma StopsKept(store: Store, after: Store, cpus: seq<CpuInfo>, leaf: string, text: string, entry: string)
    requires IsLeaf(leaf) && Overwritten(store, after, cpus, leaf, text, 0, |cpus|)
    ensures Stops(after, entry) <==> Stops(store, entry)
  {
    OnlineKept(store, after, cpus, leaf, text, CPU_ROOT + [entry]);
    SameDirs(store, after, CPU_ROOT + [entry] + ["cpufreq"]);
    SameDirs(store, after, CPU_ROOT + [entry] + ["cpuidle"]);
    hide ReadOnline, IsLeaf;
  }

  lemma {:induction false} ReadableKept(store: Store, after: Store, cpus: seq<CpuInfo>, leaf: string, text: string,
                                        entries: seq<string>)
    requires IsLeaf(leaf) && Overwritten(store, after, cpus, leaf, text, 0, |cpus|)
    ensures Readable(after, entries) == Readable(store, entries)
  {
    hide Stops, Overwritten, IsLeaf;
    if entries == [] {
    } else {
      StopsKept(store, after, cpus, leaf, text, entries[0]);
      ReadableKept(store, after, cpus, leaf, text, entries[1..]);
    }
  }

  lemma {:induction false} CpusReread(store: Store, after: Store, cpus: seq<CpuInfo>, leaf: string, text: string,
                                      entries: seq<string>)
    requires IsLeaf(leaf) && Overwritten(store, after, cpus, leaf, text, 0, |cpus|)
    ensures ReadCpus(after, entries) == RereadAll(store, cpus, ReadCpus(store, entries), leaf, text)
  {
    hide ReadCpu, Reread, Overwritten, IsLeaf, IdOf;
    if entries == [] {
    } else {
      var n := |entries| - 1;
      var id := IdOf(entries[n]);
      var front := ReadCpus(store, entries[..n]);
      CpusReread(store, after, cpus, leaf, text, entries[..n]);
      if id.Some? {
        var c := ReadCpu(store, entries[n], id.value);
        CpuRereads(store, after, cpus, leaf, text, entries[n], id.value);
        assert RereadAll(store, cpus, front + [c], leaf, text)
            == RereadAll(store, cpus, front, leaf, text) + [Reread(store, cpus, c, leaf, text)];
      } else {
        assert ReadCpus(store, entries) == front;
      }
    }
  }

  /**
   * A setter whose writes all succeed, called on any list, however old: its refresh shows what a refresh just before
   * the call would have shown, except that every CPU whose file was written (and can be read) now shows the written
   * text, parsed. It fails exactly when that refresh would have failed.
   */
  lemma RefreshReadsBack(store: Store, cpus: seq<CpuInfo>, leaf: string, text: string)
    requires IsLeaf(leaf) && AllWritten(store, cpus, leaf, text)
    ensures var (_, now, r) := SetStep(store, cpus, leaf, text);
      match Discovered(store)
      case None => r == Failed && now == RereadAll(store, cpus, Partial(store), leaf, text)
      case Some(seen) => r == Done && now == RereadAll(store, cpus, seen, leaf, text)
  {
    WriteEffect(store, cpus, leaf, text, 0);
    var after := WriteFrom(store, cpus, leaf, text, 0).0;
    assert after.listing == store.listing;
    if store.listing(CPU_ROOT).Some? {
      var entries := store.listing(CPU_ROOT).value.names;
      hide ReadCpus, Reread, WriteFrom, IsLeaf, SortById, Overwritten, Readable;
      ReadableKept(store, after, cpus, leaf, text, entries);
      CpusReread(store, after, cpus, leaf, text, entries);
      CpusReread(store, after, cpus, leaf, text, entries[..Readable(store, entries)]);
      SortCommutes(store, cpus, ReadCpus(store, entries), leaf, text);
    }
  }

  /** CPU c of a fresh reading is not said to be offline and has its file among those the setter wrote. */
  ghost predicate Shows(store: Store, cpus: seq<CpuInfo>, c: CpuInfo, leaf: string) {
    && c.sysfsPath.Some? && !SaysOffline(store, c.sysfsPath.value)
    && WasWritten(store, cpus, leaf, c.sysfsPath.value + ["cpufreq", leaf])
  }

  lemma RereadIff(store: Store, cpus: seq<CpuInfo>, leaf: string, text: string, i: nat)
    requires Discovered(store).Some? && i < |Discovered(store).value|
    ensures var c := Discovered(store).value[i];
      Reread(store, cpus, c, leaf, text)
      == if Shows(store, cpus, c, leaf) then WithText(store, c, leaf, text) else c
  {
    var c := Discovered(store).value[i];
    ListedFromDirs(store);
    assert c in Discovered(store).value;
    OnlineIff(store, c.sysfsPath.value);
    hide Discovered, WasWritten, WithText, SaysOffline, ReadOnline;
  }

  /**
   * set_min_freq: every CPU not said to be offline whose minimum file was written is re-read as exactly the requested
   * number; no other record moves.
   */
  lemma MinFreqReadsBack(store: Store, cpus: seq<CpuInfo>, khz: nat, i: nat)
    requires khz < U64 && AllWritten(store, cpus, MIN_FREQ, Decimal(khz))
    requires Discovered(store).Some? && i < |Discovered(store).value|
    ensures var seen := Discovered(store).value;
      var (_, now, r) := SetStep(store, cpus, MIN_FREQ, Decimal(khz));
      r == Done && |now| == |seen|
      && now[i] == if Shows(store, cpus, seen[i], MIN_FREQ) then seen[i].(minKhz := Some(khz)) else seen[i]
  {
    RefreshReadsBack(store, cpus, MIN_FREQ, Decimal(khz));
    RereadIff(store, cpus, MIN_FREQ, Decimal(khz), i);
    DecimalRoundTrip(khz, U64);
    hide Discovered, SetStep, Decimal, Trim, WasWritten, AllWritten, Shows, Reread;
  }

  /** set_max_freq, likewise. */
  lemma MaxFreqReadsBack(store: Store, cpus: seq<CpuInfo>, khz: nat, i: nat)
    requires khz < U64 && AllWritten(store, cpus, MAX_FREQ, Decimal(khz))
    requires Discovered(store).Some? && i < |Discovered(store).value|
    ensures var seen := Discovered(store).value;
      var (_, now, r) := SetStep(store, cpus, MAX_FREQ, Decimal(khz));
      r == Done && |now| == |seen|
      && now[i] == if Shows(store, cpus, seen[i], MAX_FREQ) then seen[i].(maxKhz := Some(khz)) else seen[i]
  {
    RefreshReadsBack(store, cpus, MAX_FREQ, Decimal(khz));
    RereadIff(store, cpus, MAX_FREQ, Decimal(khz), i);
    DecimalRoundTrip(khz, U64);
    LeavesDiffer();
    hide Discovered, SetStep, Decimal, Trim, WasWritten, AllWritten, Shows, Reread, MIN_FREQ, MAX_FREQ,
         GOVERNOR;
  }

  /**
   * set_governor: every CPU written to reads back the governor itself exactly when its name survives printing and
   * parsing.
   */
  lemma GovernorReadsBack(store: Store, cpus: seq<CpuInfo>, g: Governor, i: nat)
    requires IsLowercasing(store.lowercase) && AllWritten(store, cpus, GOVERNOR, PrintGovernor(g))
    requires Discovered(store).Some? && i < |Discovered(store).value|
    ensures var seen := Discovered(store).value;
      var (_, now, r) := SetStep(store, cpus, GOVERNOR, PrintGovernor(g));
      r == Done && |now| == |seen|
      && (!Shows(store, cpus, seen[i], GOVERNOR) ==> now[i] == seen[i])
      && (Shows(store, cpus, seen[i], GOVERNOR) ==>
            && now[i] == seen[i].(governor := now[i].governor)
            && (now[i].governor == g <==> (g.Unknown? ==> IsPlainName(store.lowercase, g.name))))
  {
    RefreshReadsBack(store, cpus, GOVERNOR, PrintGovernor(g));
    RereadIff(store, cpus, GOVERNOR, PrintGovernor(g), i);
    GovernorRoundTrip(store.lowercase, g);
    LeavesDiffer();
    hide Discovered, SetStep, PrintGovernor, ParseGovernor, Trim, IsPlainName, WasWritten, AllWritten, Shows, Reread,
         MIN_FREQ, MAX_FREQ, GOVERNOR;
  }

  /**
   * On the list a refresh of the same files made, the records that move are exactly those of the directories that are
   * not said to be offline and whose file exists and can be read.
   */
  lemma MatchingList(store: Store, leaf: string, i: nat)
    requires Discovered(store).Some? && i < |Discovered(store).value|
    ensures var cpus := Discovered(store).value;
      && cpus[i].sysfsPath.Some?
      && var file := cpus[i].sysfsPath.value + ["cpufreq", leaf];
      (Shows(store, cpus, cpus[i], leaf) <==>
         !SaysOffline(store, cpus[i].sysfsPath.value) && file in store.files && store.readable(file))
  {
    var cpus := Discovered(store).value;
    ListedFromDirs(store);
    assert cpus[i] in cpus;
    OnlineIff(store, cpus[i].sysfsPath.value);
    hide ReadOnline, Discovered, SaysOffline;
    var target := Target(store, cpus[i], leaf);
    if target.Some? {
      assert IsTarget(store, cpus, leaf, 0, |cpus|, target.value);
    }
  }
}
