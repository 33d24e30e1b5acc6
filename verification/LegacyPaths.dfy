/** Adoption of pre-rename files, src/legacy_paths.rs, as steps on a file system. */
module LegacyPaths {
  import opened Text
  import FileStore

  type Path = FileStore.Path

  const LEGACY_DIR: string := "simon"
  const CURRENT_DIR: string := "ironmon"

  // ---- path rewriting ----

  function Rewritten(p: Path): (r: Path)
    ensures |r| == |p| && forall i :: 0 <= i < |r| ==> r[i] == if p[i] == CURRENT_DIR then LEGACY_DIR else p[i]
  {
    seq(|p|, i requires 0 <= i < |p| => if p[i] == CURRENT_DIR then LEGACY_DIR else p[i])
  }

  function LegacyOf(p: Path): Option<Path> {
    if CURRENT_DIR in p then Some(Rewritten(p)) else None
  }

  /** legacy_path: rebuild the path component by component, remembering whether anything was rewritten. */
  method LegacyPath(current: Path) returns (r: Option<Path>)
    ensures r == LegacyOf(current)
  {
    var out: Path := [];
    var rewrote := false;
    for k := 0 to |current|
      invariant out == Rewritten(current[..k])
      invariant rewrote == (CURRENT_DIR in current[..k])
    {
      assert current[..k + 1] == current[..k] + [current[k]];
      if current[k] == CURRENT_DIR {
        out := out + [LEGACY_DIR];
        rewrote := true;
      } else {
        out := out + [current[k]];
      }
    }
    assert current[..|current|] == current;
    r := if rewrote then Some(out) else None;
  }

  /** The path before the rename: the same with every ironmon component called simon, of which there is one at least. */
  predicate IsLegacyOf(p: Path, q: Path) {
    && "ironmon" in p && |q| == |p|
    && forall i :: 0 <= i < |p| ==> q[i] == if p[i] == "ironmon" then "simon" else p[i]
  }

  /** Exactly the paths with an ironmon component have a legacy path, it is that one, and it has none of its own. */
  lemma LegacyPathMeaning(p: Path)
    ensures LegacyOf(p).None? <==> "ironmon" !in p
    ensures LegacyOf(p).Some? ==>
      var q := LegacyOf(p).value;
      IsLegacyOf(p, q) && q != p && LegacyOf(q).None?
    ensures forall q :: IsLegacyOf(p, q) ==> LegacyOf(p) == Some(q)
  {
    DirsDiffer();
    hide CURRENT_DIR, LEGACY_DIR;
    if CURRENT_DIR in p {
      var i :| 0 <= i < |p| && p[i] == CURRENT_DIR;
      assert Rewritten(p)[i] == LEGACY_DIR;
      forall q | IsLegacyOf(p, q)
        ensures q == Rewritten(p)
      {
      }
    }
  }

  lemma DirsDiffer()
    ensures CURRENT_DIR != LEGACY_DIR && CURRENT_DIR == "ironmon" && LEGACY_DIR == "simon"
  {
    assert |CURRENT_DIR| == 7 && |LEGACY_DIR| == 5;
  }

  // ---- adoption ----

  datatype Disk = Disk(files: map<Path, string>, dirs: set<Path>) {
    predicate Exists(p: Path) {
      p in files || p in dirs
    }
  }

  /**
   * What the operating system does to one adoption: nothing wrong; directory creation stops after `made`
   * levels; the copy cannot be opened; or the copy breaks off after part of the text.
   */
  datatype Fault = NoFault | DirDenied(made: nat) | CopyDenied | CopyBroken(partial: string)

  datatype Adoption = AlreadyPresent | Adopted(legacy: Path) | Nothing | Failed

  function Prefixes(p: Path, n: nat): set<Path> {
    set i | 1 <= i <= |p| && i <= n :: p[..i]
  }

  /**
   * create_dir_all: the directories it leaves and whether it succeeded. A file in the way stops it before it starts.
   */
  function CreateDirAll(d: Disk, dir: Path, fault: Fault): (Disk, bool) {
    if dir in d.dirs || dir == [] then (d, true)
    else if exists p :: p in Prefixes(dir, |dir|) && p in d.files then (d, false)
    else if fault.DirDenied? then (d.(dirs := d.dirs + Prefixes(dir, fault.made)), false)
    else (d.(dirs := d.dirs + Prefixes(dir, |dir|)), true)
  }

  /** The directory a path lies in; the root always exists. */
  predicate HasParent(d: Disk, p: Path) {
    |p| <= 1 || p[..|p| - 1] in d.dirs
  }

  /** Opening the source, then truncating and filling the target. */
  function CopyFile(d: Disk, from: Path, to: Path, fault: Fault): (Disk, bool) {
    if from !in d.files || to in d.dirs || !HasParent(d, to) || fault.CopyDenied? then (d, false)
    else (d.(files := d.files[to := Copied(d, from, fault)]), !fault.CopyBroken?)
  }

  /** What the copy leaves in its target. */
  function Copied(d: Disk, from: Path, fault: Fault): string
    requires from in d.files
  {
    if fault.CopyBroken? then fault.partial else d.files[from]
  }

  /** What users succeed in doing to files and directories. */
  datatype Act = Write(path: Path, text: string) | Remove(path: Path) | MakeDir(path: Path) | RemoveDir(path: Path)

  predicate IsEmptyDir(d: Disk, p: Path) {
    (forall q :: q in d.files ==> !(p < q)) && forall q :: q in d.dirs ==> !(p < q)
  }

  /** A directory cannot replace a file, and only an empty one can be removed. */
  function Acted(d: Disk, a: Act): Disk {
    match a
    case Write(p, text) => d.(files := d.files[p := text])
    case Remove(p) => d.(files := d.files - {p})
    case MakeDir(p) => if p in d.files then d else d.(dirs := d.dirs + {p})
    case RemoveDir(p) => if IsEmptyDir(d, p) then d.(dirs := d.dirs - {p}) else d
  }

  function Acts(d: Disk, acts: seq<Act>): Disk {
    if acts == [] then d else Acted(Acts(d, acts[..|acts| - 1]), acts[|acts| - 1])
  }

  /**
   * legacy_consent_exists: the current path is free and its legacy form is a file. That is also when adopt goes on to
   * copy.
   */
  function LegacyConsentExists(d: Disk, current: Path): Option<Path> {
    if d.Exists(current) then None
    else
      match LegacyOf(current)
      case None => None
      case Some(legacy) => if legacy in d.files then Some(legacy) else None
  }

  /** adopt, with what users do between the check and the directories (early) and between those and the copy (late). */
  function AdoptAmid(d: Disk, current: Path, fault: Fault, early: seq<Act>, late: seq<Act>): (Disk, Adoption) {
    if d.Exists(current) then (d, AlreadyPresent)
    else if LegacyConsentExists(d, current).None? then (d, Nothing)
    else
      var legacy := LegacyConsentExists(d, current).value;
      var (e, made) := CreateDirAll(Acts(d, early), current[..|current| - 1], fault);
      if !made then (e, Failed)
      else
        var (f, ok) := CopyFile(Acts(e, late), legacy, current, fault);
        (f, if ok then Adopted(legacy) else Failed)
  }

  /** adopt when nobody else writes meanwhile. */
  function AdoptStep(d: Disk, current: Path, fault: Fault): (Disk, Adoption) {
    AdoptAmid(d, current, fault, [], [])
  }

  class FileSystem {
    var disk: Disk

    constructor (disk: Disk)
      ensures this.disk == disk
    {
      this.disk := disk;
    }

    method CreateDirs(dir: Path, fault: Fault) returns (ok: bool)
      modifies this
      ensures (disk, ok) == CreateDirAll(old(disk), dir, fault)
    {
      var (after, made) := CreateDirAll(disk, dir, fault);
      disk := after;
      ok := made;
    }

    method Copy(from: Path, to: Path, fault: Fault) returns (ok: bool)
      modifies this
      ensures (disk, ok) == CopyFile(old(disk), from, to, fault)
    {
      if from !in disk.files {
        return false;
      }
      var text := disk.files[from];
      if to in disk.dirs || !HasParent(disk, to) || fault.CopyDenied? {
        return false;
      }
      if fault.CopyBroken? {
        disk := disk.(files := disk.files[to := fault.partial]);
        return false;
      }
      disk := disk.(files := disk.files[to := text]);
      ok := true;
    }

    /** Users at work. */
    method Others(acts: seq<Act>)
      modifies this
      ensures disk == Acts(old(disk), acts)
    {
      for k := 0 to |acts|
        invariant disk == Acts(old(disk), acts[..k])
      {
        assert acts[..k + 1][..k] == acts[..k];
        disk := Acted(disk, acts[k]);
      }
      assert acts[..|acts|] == acts;
    }

    /** adopt step by step, with users at work between its steps. */
    method Adopt(current: Path, fault: Fault, early: seq<Act>, late: seq<Act>) returns (r: Adoption)
      modifies this
      ensures (disk, r) == AdoptAmid(old(disk), current, fault, early, late)
    {
      if disk.Exists(current) {
        return AlreadyPresent;
      }
      var found := LegacyPath(current);
      if found.None? {
        return Nothing;
      }
      var legacy := found.value;
      if legacy !in disk.files {
        return Nothing;
      }
      Others(early);
      var made := CreateDirs(current[..|current| - 1], fault);
      if !made {
        return Failed;
      }
      Others(late);
      var ok := Copy(legacy, current, fault);
      r := if ok then Adopted(legacy) else Failed;
    }
  }

  // ---- laws of one adoption ----

  /** The act writes or removes this file. */
  predicate OnFile(a: Act, p: Path) {
    (a.Write? || a.Remove?) && a.path == p
  }

  /** The last thing users did to the file was to write it. */
  predicate EndsWritten(acts: seq<Act>, p: Path) {
    acts != []
    && var last := acts[|acts| - 1];
       if OnFile(last, p) then last.Write? else EndsWritten(acts[..|acts| - 1], p)
  }

  predicate Touches(acts: seq<Act>, p: Path) {
    exists i :: 0 <= i < |acts| && OnFile(acts[i], p)
  }

  lemma TouchesNext(acts: seq<Act>, p: Path)
    requires acts != []
    ensures Touches(acts, p) <==> Touches(acts[..|acts| - 1], p) || OnFile(acts[|acts| - 1], p)
  {
    var n := |acts| - 1;
    hide OnFile;
    if i :| 0 <= i < |acts| && OnFile(acts[i], p) {
      assert i == n || acts[..n][i] == acts[i];
    }
    if i :| 0 <= i < n && OnFile(acts[..n][i], p) {
      assert OnFile(acts[i], p);
    }
  }

  /** After users acted a file holds what they did to it last, or what it held. */
  lemma {:induction false} ActsAt(d: Disk, acts: seq<Act>, p: Path)
    ensures !Touches(acts, p) ==> (p in Acts(d, acts).files <==> p in d.files)
    ensures !Touches(acts, p) && p in d.files ==> Acts(d, acts).files[p] == d.files[p]
    ensures p in Acts(d, acts).files <==> EndsWritten(acts, p) || (!Touches(acts, p) && p in d.files)
  {
    if acts == [] {
    } else {
      ActsAt(d, acts[..|acts| - 1], p);
      TouchesNext(acts, p);
      hide Touches, IsEmptyDir;
    }
  }

  predicate RemovesDir(acts: seq<Act>, p: Path) {
    RemoveDir(p) in acts
  }

  lemma {:induction false} ActsKeepDir(d: Disk, acts: seq<Act>, p: Path)
    requires p in d.dirs && !RemovesDir(acts, p)
    ensures p in Acts(d, acts).dirs
  {
    hide IsEmptyDir;
    if acts == [] {
    } else {
      ActsKeepDir(d, acts[..|acts| - 1], p);
      assert acts[|acts| - 1] in acts;
    }
  }

  /** The disk just before the copy, if adopt gets there. */
  function BeforeCopy(d: Disk, current: Path, fault: Fault, early: seq<Act>, late: seq<Act>): Option<Disk> {
    if LegacyConsentExists(d, current).None? then None
    else
      var (e, made) := CreateDirAll(Acts(d, early), current[..|current| - 1], fault);
      if made then Some(Acts(e, late)) else None
  }

  /** The copy opens its source and its target. */
  predicate CopyRuns(b: Disk, legacy: Path, current: Path, fault: Fault) {
    legacy in b.files && current !in b.dirs && HasParent(b, current) && !fault.CopyDenied?
  }

  lemma {:induction false} EndsWrittenJoin(early: seq<Act>, late: seq<Act>, p: Path)
    ensures EndsWritten(early + late, p) <==> EndsWritten(late, p) || (!Touches(late, p) && EndsWritten(early, p))
  {
    if late == [] {
      assert early + late == early;
    } else {
      var n := |late| - 1;
      assert (early + late)[..|early| + n] == early + late[..n];
      EndsWrittenJoin(early, late[..n], p);
      TouchesNext(late, p);
      hide Touches, OnFile;
    }
  }

  /**
   * Whatever users do meanwhile: adopt reaches the copy exactly when a legacy file is offered and the directory above
   * the path is there or can be made, and it adopts exactly when the copy then finds its source, a place for the file
   * and no fault.
   */
  lemma AdoptedIff(d: Disk, current: Path, fault: Fault, early: seq<Act>, late: seq<Act>)
    ensures var b, r := BeforeCopy(d, current, fault, early, late), AdoptAmid(d, current, fault, early, late).1;
      var legacy, a := LegacyConsentExists(d, current), Acts(d, early);
      && (b.Some? <==>
            && legacy.Some?
            && var dir := current[..|current| - 1];
               || dir in a.dirs || dir == []
               || (!fault.DirDenied? && forall i :: 0 < i <= |dir| ==> dir[..i] !in a.files))
      && (r.Adopted? <==>
            && b.Some?
            && legacy.value in b.value.files && current !in b.value.dirs
            && (|current| <= 1 || current[..|current| - 1] in b.value.dirs)
            && !fault.CopyDenied? && !fault.CopyBroken?)
      && (r.Adopted? ==> Some(r.legacy) == legacy)
  {
    if LegacyConsentExists(d, current).Some? {
      LegacyPathMeaning(current);
      var dir, a := current[..|current| - 1], Acts(d, early);
      if p :| p in Prefixes(dir, |dir|) && p in a.files {
        var i :| 0 < i <= |dir| && p == dir[..i];
      }
      if i :| 0 < i <= |dir| && dir[..i] in a.files {
        assert dir[..i] in Prefixes(dir, |dir|);
      }
      hide LegacyOf, Acts;
    }
  }

  /** The current path is free before the copy unless users wrote it, last of all, after the check. */
  lemma CurrentAppears(d: Disk, current: Path, fault: Fault, early: seq<Act>, late: seq<Act>)
    requires BeforeCopy(d, current, fault, early, late).Some?
    ensures current in BeforeCopy(d, current, fault, early, late).value.files <==> EndsWritten(early + late, current)
  {
    var (e, _) := CreateDirAll(Acts(d, early), current[..|current| - 1], fault);
    ActsAt(d, early, current);
    ActsAt(e, late, current);
    EndsWrittenJoin(early, late, current);
    hide EndsWritten, Touches;
    assert e.files == Acts(d, early).files;
  }

  ghost predicate Damages(b: Disk, e: Disk, p: Path) {
    p in b.files && (p !in e.files || e.files[p] != b.files[p])
  }

  /**
   * Adoption itself changes or removes an existing file exactly when users wrote the current path between the check and
   * the copy, and the copy then runs and leaves another text there; that file is the one it changes.
   */
  lemma OverwritesIff(d: Disk, current: Path, fault: Fault, early: seq<Act>, late: seq<Act>)
    requires BeforeCopy(d, current, fault, early, late).Some?
    ensures var b, legacy := BeforeCopy(d, current, fault, early, late).value, LegacyConsentExists(d, current).value;
      var e := AdoptAmid(d, current, fault, early, late).0;
      && (forall p :: Damages(b, e, p) ==> p == current)
      && (current in b.files <==> EndsWritten(early + late, current))
      && (Damages(b, e, current) <==>
            && current in b.files && CopyRuns(b, legacy, current, fault)
            && Copied(b, legacy, fault) != b.files[current])
  {
    CurrentAppears(d, current, fault, early, late);
    hide EndsWritten, CreateDirAll, Acts, LegacyConsentExists;
  }

  /**
   * A failing input: a file that a user creates at the current path just before the copy is lost to the legacy text.
   */
  lemma UserFileIsLost(d: Disk, current: Path, text: string)
    requires BeforeCopy(d, current, NoFault, [], [Write(current, text)]).Some?
    requires text != d.files[LegacyConsentExists(d, current).value]
    ensures var late := [Write(current, text)];
      var b, (e, r) := BeforeCopy(d, current, NoFault, [], late).value, AdoptAmid(d, current, NoFault, [], late);
      current in b.files && b.files[current] == text && r.Adopted? && Damages(b, e, current)
  {
    LegacyPathMeaning(current);
    var late := [Write(current, text)];
    assert late[..0] == [];
    var (e, _) := CreateDirAll(d, current[..|current| - 1], NoFault);
    assert Acts(e, late) == Acted(Acts(e, late[..0]), late[0]);
    NotAPrefix(current[..|current| - 1], current, |current| - 1);
    ParentMade(d, current, NoFault);
    hide LegacyOf, Prefixes;
  }

  lemma ParentMade(d: Disk, p: Path, fault: Fault)
    requires p != [] && CreateDirAll(d, p[..|p| - 1], fault).1
    ensures HasParent(CreateDirAll(d, p[..|p| - 1], fault).0, p)
  {
    var dir := p[..|p| - 1];
    if |p| > 1 && dir !in d.dirs {
      assert dir[..|dir|] == dir;
    }
  }

  /**
   * A file users do not touch meanwhile is neither changed nor removed, and none appears but the current one and
   * theirs.
   */
  lemma AdoptKeeps(d: Disk, current: Path, fault: Fault, early: seq<Act>, late: seq<Act>, p: Path)
    requires !Touches(early, p) && !Touches(late, p)
    ensures var (e, r) := AdoptAmid(d, current, fault, early, late);
      && (p in d.files ==> p in e.files && e.files[p] == d.files[p])
      && (p in e.files && p !in d.files ==> p == current)
  {
    if LegacyConsentExists(d, current).Some? {
      var (e, _) := CreateDirAll(Acts(d, early), current[..|current| - 1], fault);
      ActsAt(d, early, p);
      ActsAt(e, late, p);
      hide Touches, EndsWritten, Acts, HasParent;
    }
  }

  /** A directory users do not remove meanwhile stays. */
  lemma AdoptKeepsDirs(d: Disk, current: Path, fault: Fault, early: seq<Act>, late: seq<Act>, p: Path)
    requires p in d.dirs && !RemovesDir(early, p) && !RemovesDir(late, p)
    ensures p in AdoptAmid(d, current, fault, early, late).0.dirs
  {
    if LegacyConsentExists(d, current).Some? {
      var (e, _) := CreateDirAll(Acts(d, early), current[..|current| - 1], fault);
      ActsKeepDir(d, early, p);
      assert p in e.dirs;
      ActsKeepDir(e, late, p);
      hide Acts, HasParent;
    }
  }

  /**
   * Adopted, whatever users did meanwhile: the current file equals its legacy source as it was at the copy, which is
   * still there; the next call says AlreadyPresent.
   */
  lemma AdoptCopies(d: Disk, current: Path, fault: Fault, early: seq<Act>, late: seq<Act>)
    requires AdoptAmid(d, current, fault, early, late).1.Adopted?
    ensures var (e, r) := AdoptAmid(d, current, fault, early, late);
      var b := BeforeCopy(d, current, fault, early, late);
      && LegacyOf(current) == Some(r.legacy)
      && r.legacy in d.files && current !in d.files
      && b.Some? && r.legacy in b.value.files
      && r.legacy in e.files && e.files[r.legacy] == b.value.files[r.legacy]
      && current in e.files && e.files[current] == e.files[r.legacy]
      && forall again :: AdoptStep(e, current, again) == (e, AlreadyPresent)
  {
    LegacyPathMeaning(current);
    hide Acts, CreateDirAll, LegacyOf;
  }

  /** A file stands where a directory above the path would have to be made. */
  predicate Blocked(d: Disk, p: Path) {
    var dir := p[..if p == [] then 0 else |p| - 1];
    dir != [] && dir !in d.dirs && exists q :: q in Prefixes(dir, |dir|) && q in d.files
  }

  /** A file stands at the path's place before the rename. */
  ghost predicate Offered(d: Disk, current: Path) {
    exists q :: IsLegacyOf(current, q) && q in d.files
  }

  /** A legacy file is named exactly when the current path is free and there is one. */
  lemma LegacyConsentIff(d: Disk, current: Path)
    ensures var r := LegacyConsentExists(d, current);
      && (r.Some? <==> current !in d.files && current !in d.dirs && Offered(d, current))
      && (r.Some? ==> IsLegacyOf(current, r.value) && r.value in d.files)
  {
    LegacyPathMeaning(current);
    hide IsLegacyOf, LegacyOf;
  }

  /** When each answer is given, without faults and without other writers. */
  lemma AdoptAnswers(d: Disk, current: Path)
    ensures var (e, r) := AdoptStep(d, current, NoFault);
      var free := current !in d.files && current !in d.dirs;
      && (r == AlreadyPresent <==> !free)
      && (r == Nothing <==> free && !Offered(d, current))
      && (r == Failed <==> free && Offered(d, current) && Blocked(d, current))
      && (r.Adopted? <==> free && Offered(d, current) && !Blocked(d, current))
      && (r.Adopted? ==> IsLegacyOf(current, r.legacy) && r.legacy in d.files)
      && (!r.Adopted? ==> e == d)
  {
    LegacyConsentIff(d, current);
    LegacyPathMeaning(current);
    hide Offered, IsLegacyOf;
    if LegacyConsentExists(d, current).Some? {
      var dir := current[..|current| - 1];
      NotAPrefix(dir, current, |dir|);
      if CreateDirAll(d, dir, NoFault).1 {
        ParentMade(d, current, NoFault);
      }
      hide Prefixes, LegacyOf, HasParent;
    }
  }

  /** What an adoption without other writers makes of the directories: those above the path, if they were not there. */
  lemma AdoptMakesDirs(d: Disk, current: Path, p: Path)
    requires AdoptStep(d, current, NoFault).1.Adopted?
    ensures p in AdoptStep(d, current, NoFault).0.dirs <==>
      || p in d.dirs
      || (current[..|current| - 1] !in d.dirs && exists i :: 0 < i < |current| && p == current[..i])
  {
    LegacyPathMeaning(current);
    var dir := current[..|current| - 1];
    hide LegacyOf, HasParent;
    forall i | 0 < i < |current|
      ensures current[..i] == dir[..i]
    {
    }
  }

  /**
   * After a failed adoption a clean retry adopts exactly when the failure left no file behind; a broken copy is kept
   * as if it were the user's.
   */
  lemma RetryAfterFailure(d: Disk, current: Path, fault: Fault)
    requires AdoptStep(d, current, fault).1 == Failed && AdoptStep(d, current, NoFault).1.Adopted?
    ensures var e := AdoptStep(d, current, fault).0;
      AdoptStep(e, current, NoFault).1.Adopted? <==> current !in e.files
    ensures fault.CopyBroken? ==> AdoptStep(AdoptStep(d, current, fault).0, current, NoFault).1 == AlreadyPresent
  {
    var e := AdoptStep(d, current, fault).0;
    var dir := current[..|current| - 1];
    if current !in e.files {
      NotAPrefix(dir, current, |dir|);
      assert !e.Exists(current) by {
        if fault.DirDenied? {
          NotAPrefix(dir, current, fault.made);
        }
      }
      ParentMade(d, current, NoFault);
      AdoptAnswers(e, current);
      AdoptAnswers(d, current);
    }
  }

  lemma NotAPrefix(dir: Path, p: Path, n: nat)
    requires |dir| < |p|
    ensures p !in Prefixes(dir, n)
  {
  }

  // ---- runs ----

  /** Adoptions, with what users do during them, and what users do at other times. */
  datatype Op = AdoptAt(path: Path, fault: Fault, early: seq<Act>, late: seq<Act>) | User(act: Act)

  function Step(d: Disk, op: Op): Disk {
    match op
    case AdoptAt(p, f, early, late) => AdoptAmid(d, p, f, early, late).0
    case User(a) => Acted(d, a)
  }

  function Run(d: Disk, ops: seq<Op>): Disk {
    if ops == [] then d else Step(Run(d, ops[..|ops| - 1]), ops[|ops| - 1])
  }

  /** What users do in one step. */
  function ActsOf(op: Op): seq<Act> {
    match op
    case AdoptAt(_, _, early, late) => early + late
    case User(a) => [a]
  }

  /** No user ever writes or removes this path. */
  predicate UsersLeave(ops: seq<Op>, p: Path) {
    forall i :: 0 <= i < |ops| ==> !Touches(ActsOf(ops[i]), p)
  }

  lemma TouchesJoin(early: seq<Act>, late: seq<Act>, p: Path)
    ensures Touches(early, p) || Touches(late, p) ==> Touches(early + late, p)
  {
    if i :| 0 <= i < |early| && OnFile(early[i], p) {
      assert (early + late)[i] == early[i];
    }
    if i :| 0 <= i < |late| && OnFile(late[i], p) {
      assert (early + late)[|early| + i] == late[i];
    }
  }

  lemma StepKeeps(d: Disk, op: Op, p: Path)
    requires p in d.files && !Touches(ActsOf(op), p)
    ensures p in Step(d, op).files && Step(d, op).files[p] == d.files[p]
  {
    match op {
      case AdoptAt(path, f, early, late) =>
        TouchesJoin(early, late, p);
        AdoptKeeps(d, path, f, early, late, p);
      case User(a) =>
        assert [a][0] == a;
    }
  }

  /**
   * Over any interleaving, also inside adoptions, a file that no user touches keeps its text: adoption never changes
   * it.
   */
  lemma {:induction false} UntouchedFilesStay(d: Disk, ops: seq<Op>, p: Path)
    requires p in d.files && UsersLeave(ops, p)
    ensures p in Run(d, ops).files && Run(d, ops).files[p] == d.files[p]
  {
    if ops == [] {
    } else {
      var n := |ops| - 1;
      UntouchedFilesStay(d, ops[..n], p);
      hide Step, Touches;
      StepKeeps(Run(d, ops[..n]), ops[n], p);
    }
  }

  /** Users may write this path but never remove it. */
  predicate NeverRemoved(ops: seq<Op>, p: Path) {
    forall i, a :: 0 <= i < |ops| && a in ActsOf(ops[i]) ==> !(a.Remove? && a.path == p)
  }

  lemma {:induction false} ActsLeave(d: Disk, acts: seq<Act>, p: Path)
    requires p in d.files && forall a :: a in acts ==> !(a.Remove? && a.path == p)
    ensures p in Acts(d, acts).files
  {
    if acts == [] {
    } else {
      ActsLeave(d, acts[..|acts| - 1], p);
    }
  }

  lemma StepLeaves(d: Disk, op: Op, p: Path)
    requires p in d.files && forall a :: a in ActsOf(op) ==> !(a.Remove? && a.path == p)
    ensures p in Step(d, op).files
  {
    match op {
      case AdoptAt(path, f, early, late) =>
        if LegacyConsentExists(d, path).Some? {
          var (e, _) := CreateDirAll(Acts(d, early), path[..|path| - 1], f);
          ActsLeave(d, early, p);
          ActsLeave(e, late, p);
          hide Acts;
        }
      case User(a) =>
        assert a in [a];
    }
  }

  lemma {:induction false} FileStays(d: Disk, ops: seq<Op>, p: Path)
    requires p in d.files && NeverRemoved(ops, p)
    ensures p in Run(d, ops).files
  {
    if ops == [] {
    } else {
      var n := |ops| - 1;
      FileStays(d, ops[..n], p);
      hide Step, ActsOf;
      StepLeaves(Run(d, ops[..n]), ops[n], p);
    }
  }

  /**
   * Once a file is at the current path and nobody removes it, every later adoption answers AlreadyPresent and changes
   * nothing.
   */
  lemma RepeatsAreIdle(d: Disk, ops: seq<Op>, current: Path, fault: Fault, early: seq<Act>, late: seq<Act>)
    requires current in d.files && NeverRemoved(ops, current)
    ensures AdoptAmid(Run(d, ops), current, fault, early, late) == (Run(d, ops), AlreadyPresent)
  {
    FileStays(d, ops, current);
  }
}
