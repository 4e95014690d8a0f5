/** The change-to-backup pipeline shared by the service build (program.go)
    and the foreground build (main.go): the ignore filter, the choice of the
    watched root a changed file belongs to, the destination inside a new
    snapshot directory, and the fixed sequence of file-system steps that
    copies the file there. */
module Backup {
  import opened Paths
  import Glob
  import GlobTheory
  import Timestamp
  import opened FileSystem

  /** The configuration read from config.yaml. */
  datatype Config = Config(backupBase: Path, watchDirs: seq<Path>, ignorePatterns: seq<string>)

  /** The step at which a backup gave up; each is one `return "", err`. */
  datatype Step = FindRoot | RelPath | MakeDir | OpenSource | CreateDest | CopyData

  datatype Outcome = Copied(dest: Path) | Failed(step: Step)

  /** The faults the operating system injects into each file-system call. */
  datatype Faults = Faults(mkdir: bool, open: bool, create: bool, copy: bool)

  datatype Result = Result(outcome: Outcome, disk: Disk)

  // ---------------------------------------------------------------- ignore filter

  /** Some pattern, tried in order, matches `name` without error. */
  predicate AnyPatternMatches(patterns: seq<string>, name: string)
    decreases |patterns|
  {
    |patterns| > 0 && (Glob.Match(patterns[0], name) == Glob.Ok(true) || AnyPatternMatches(patterns[1..], name))
  }

  /** A changed path is ignored when some pattern matches its last element. */
  predicate Ignored(patterns: seq<string>, path: Path)
  {
    AnyPatternMatches(patterns, Base(path))
  }

  /** shouldIgnore: takes the last element of the path and hands it to the
      pattern loop. */
  method ShouldIgnore(patterns: seq<string>, path: Path) returns (ignore: bool)
    ensures ignore == Ignored(patterns, path)
  {
    var filename := Base(path);
    ignore := MatchAny(patterns, filename);
  }

  /** The loop of shouldIgnore: tries the patterns in order and stops at the
      first that matches; a malformed pattern is passed over. */
  method MatchAny(patterns: seq<string>, filename: string) returns (matched: bool)
    ensures matched == AnyPatternMatches(patterns, filename)
  {
    var i := 0;
    while i < |patterns|
      invariant 0 <= i <= |patterns|
      invariant AnyPatternMatches(patterns, filename) == AnyPatternMatches(patterns[i..], filename)
    {
      var m := Glob.Match(patterns[i], filename);
      assert patterns[i..][0] == patterns[i] && patterns[i..][1..] == patterns[i + 1..];
      if m == Glob.Ok(true) {
        return true;
      }
      i := i + 1;
    }
    assert patterns[i..] == [];
    return false;
  }

  /** Tried in order or not, the answer is whether any pattern in the list
      matches. */
  lemma {:induction false} AnyPatternMatchesSome(patterns: seq<string>, name: string)
    ensures AnyPatternMatches(patterns, name) <==>
      exists p :: p in patterns && Glob.Match(p, name) == Glob.Ok(true)
    decreases |patterns|
  {
    if |patterns| > 0 {
      var head, tail := patterns[0], patterns[1..];
      AnyPatternMatchesSome(tail, name);
      if AnyPatternMatches(patterns, name) {
        if Glob.Match(head, name) == Glob.Ok(true) {
          assert head in patterns;
        } else {
          var p :| p in tail && Glob.Match(p, name) == Glob.Ok(true);
          assert p in patterns;
        }
      }
      if exists p :: p in patterns && Glob.Match(p, name) == Glob.Ok(true) {
        var p :| p in patterns && Glob.Match(p, name) == Glob.Ok(true);
        if p != head {
          assert p in tail;
        }
      }
    }
  }

  /** Read through the reference meaning of patterns: a name without a
      separator, or the name "/", is matched exactly when some well-formed
      pattern in the list matches it. */
  lemma AnyPatternMatchesMeaning(patterns: seq<string>, name: string)
    requires GlobTheory.SepFree(name) || name == [Sep]
    ensures AnyPatternMatches(patterns, name) <==>
      exists p :: p in patterns && GlobTheory.Compile(p).Some? && GlobTheory.GlobMatch(GlobTheory.Compile(p).value, name)
  {
    AnyPatternMatchesSome(patterns, name);
    forall p | p in patterns
      ensures (Glob.Match(p, name) == Glob.Ok(true)) <==>
        (GlobTheory.Compile(p).Some? && GlobTheory.GlobMatch(GlobTheory.Compile(p).value, name))
    {
      GlobTheory.MatchBadIffMalformed(p, name);
      if GlobTheory.Compile(p).Some? {
        if name == [Sep] {
          GlobTheory.MatchAgreesOnRoot(p);
        } else {
          GlobTheory.MatchAgrees(p, name);
        }
      }
    }
  }

  /** The last element of a path is "/" or has no separator, so the
      reference meaning applies to every path a file event names. */
  lemma IgnoredMeaning(patterns: seq<string>, path: Path)
    ensures Ignored(patterns, path) <==>
      exists p :: p in patterns && GlobTheory.Compile(p).Some? && GlobTheory.GlobMatch(GlobTheory.Compile(p).value, Base(path))
  {
    var name := Base(path);
    BaseIsOneElement(path);
    assert GlobTheory.SepFree(name) || name == [Sep];
    AnyPatternMatchesMeaning(patterns, name);
  }

  /** A malformed pattern never causes an ignore: removing it changes
      nothing. */
  lemma MalformedPatternIsInert(before: seq<string>, bad: string, after: seq<string>, name: string)
    requires GlobTheory.Compile(bad).None?
    ensures AnyPatternMatches(before + [bad] + after, name) == AnyPatternMatches(before + after, name)
  {
    GlobTheory.MatchBadIffMalformed(bad, name);
    var all := before + [bad] + after;
    var kept := before + after;
    AnyPatternMatchesSome(all, name);
    AnyPatternMatchesSome(kept, name);
    assert forall p :: p in all <==> p in kept || p == bad;
  }

  /** The directories a file sits in never affect whether it is ignored. */
  lemma IgnoreSeesOnlyTheName(patterns: seq<string>, dir: Path, name: string)
    requires name != "" && Sep !in name
    ensures Ignored(patterns, dir + [Sep] + name) == Ignored(patterns, name)
  {
    BaseOfChild(dir, name);
  }

  // ---------------------------------------------------------------- watch-root resolution

  /** The test the root loop applies: Rel succeeds and its result does not
      begin with the two characters "..". */
  predicate Accepts(dir: Path, src: Path)
  {
    Rel(dir, src).Some? && !HasPrefix(Rel(dir, src).value, "..")
  }

  /** The index of the first watched directory that accepts `src`, or the
      number of directories when none does. */
  function FirstRoot(dirs: seq<Path>, src: Path): (i: nat)
    ensures i <= |dirs|
    ensures i < |dirs| ==> Accepts(dirs[i], src)
  {
    if |dirs| == 0 then 0
    else if Accepts(dirs[0], src) then 0
    else 1 + FirstRoot(dirs[1..], src)
  }

  /** FirstRoot is the least accepting index: no directory before it
      accepts. */
  lemma {:induction false} FirstRootIsLeast(dirs: seq<Path>, src: Path, j: nat)
    requires j < |dirs| && Accepts(dirs[j], src)
    ensures FirstRoot(dirs, src) <= j
  {
    if j > 0 && !Accepts(dirs[0], src) {
      assert dirs[1..][j - 1] == dirs[j];
      FirstRootIsLeast(dirs[1..], src, j - 1);
    }
  }

  /** The baseDir the loop leaves behind: "" when no directory accepts. */
  function Root(dirs: seq<Path>, src: Path): Path
  {
    var i := FirstRoot(dirs, src);
    if i < |dirs| then dirs[i] else ""
  }

  /** The root loop of backup: the first watched directory, in list order,
      that accepts the source path. */
  method ResolveRoot(dirs: seq<Path>, src: Path) returns (baseDir: Path)
    ensures baseDir == Root(dirs, src)
  {
    baseDir := "";
    var i := 0;
    while i < |dirs|
      invariant 0 <= i <= |dirs|
      invariant i <= FirstRoot(dirs, src)
    {
      if Accepts(dirs[i], src) {
        baseDir := dirs[i];
        FirstRootIsLeast(dirs, src, i);
        return;
      }
      i := i + 1;
    }
  }

  /** A source path that is a watched directory itself is accepted, with
      relative path ".". */
  lemma RootItselfIsAccepted(dir: Path, src: Path)
    requires Clean(src) == Clean(dir)
    ensures Accepts(dir, src) && Rel(dir, src) == Some(".")
  {
  }

  /** A file directly under a watched directory is accepted when its name
      does not start with "..", with its name as relative path; one whose
      name does start with ".." (such as "..cfg") is rejected, because the
      test is on the string, not on the first path element. */
  lemma ChildAcceptedUnlessDotDot(dir: Path, name: string)
    requires dir != "" && IsName(name)
    ensures Accepts(dir, dir + [Sep] + name) <==> !HasPrefix(name, "..")
    ensures Rel(dir, dir + [Sep] + name) == Some(name)
  {
    RelToChild(dir, name);
  }

  /** An accepted root really contains the source: either the two clean to
      the same path, or the source's elements are the root's followed by
      the plain names of the relative path. */
  lemma AcceptedRootContainsSource(dir: Path, src: Path)
    requires Accepts(dir, src)
    ensures var r := Rel(dir, src).value;
      (r == "." && Clean(src) == Clean(dir)) ||
      (AllNames(Split(r)) && IsRooted(src) == IsRooted(dir) && Names(src) == Names(dir) + Split(r))
  {
    AcceptedRelDescends(dir, src);
  }

  // ---------------------------------------------------------------- the backup steps

  /** Where a backup puts the file: the snapshot directory `stamp` under the
      backup base, then the path relative to the watched root. */
  function Destination(backupBase: Path, stamp: string, rel: Path): Path
  {
    Join([backupBase, stamp, rel])
  }

  /** The file-system part of backup once the destination is known: mkdir -p
      of its directory, open the source, create the destination, copy;
      stopping at the first step that fails. */
  function Steps(d: Disk, src: Path, dest: Path, faults: Faults): Result
  {
    match MkdirAllSpec(d, Dir(dest), faults.mkdir)
    case None => Result(Failed(MakeDir), d)
    case Some(d1) =>
      if !OpenSpec(d1, src, faults.open) then Result(Failed(OpenSource), d1)
      else
        match CreateSpec(d1, dest, faults.create)
        case None => Result(Failed(CreateDest), d1)
        case Some(d2) =>
          match CopySpec(d2, LocOf(dest), LocOf(src), faults.copy)
          case None => Result(Failed(CopyData), d2)
          case Some(d3) => Result(Copied(dest), d3)
  }

  /** What backup does when the clock reads `stamp`: find the root, compute
      the relative path and the destination, then run the steps. */
  function BackupSpec(cfg: Config, d: Disk, stamp: string, src: Path, faults: Faults): Result
  {
    var root := Root(cfg.watchDirs, src);
    if root == "" then Result(Failed(FindRoot), d)
    else
      match Rel(root, src)
      case None => Result(Failed(RelPath), d)
      case Some(rel) => Steps(d, src, Destination(cfg.backupBase, stamp, rel), faults)
  }

  /** backup(srcPath): returns the destination, or "" and the failed step. */
  method Backup(cfg: Config, fs: FileSystem, now: Timestamp.DateTime, src: Path, faults: Faults)
    returns (dest: Path, err: Option<Step>)
    modifies fs
    ensures err.Some? ==> dest == ""
    ensures BackupSpec(cfg, old(fs.Snapshot()), Timestamp.Format(now), src, faults)
      == Result(if err.None? then Copied(dest) else Failed(err.value), fs.Snapshot())
  {
    var baseDir := ResolveRoot(cfg.watchDirs, src);
    if baseDir == "" {
      return "", Some(FindRoot);
    }
    var relPath := Rel(baseDir, src);
    if relPath.None? {
      return "", Some(RelPath);
    }
    var destPath := Join([cfg.backupBase, Timestamp.Format(now), relPath.value]);
    var ok := fs.MkdirAll(Dir(destPath), faults.mkdir);
    if !ok {
      return "", Some(MakeDir);
    }
    ok := fs.Open(src, faults.open);
    if !ok {
      return "", Some(OpenSource);
    }
    ok := fs.Create(destPath, faults.create);
    if !ok {
      return "", Some(CreateDest);
    }
    ok := fs.Copy(LocOf(destPath), LocOf(src), faults.copy);
    if !ok {
      return "", Some(CopyData);
    }
    return destPath, None;
  }

  // ---------------------------------------------------------------- properties of a backup

  /** Only a source outside every watched directory fails to find a root;
      once a root is found the relative path is always computed, and the
      steps run on the destination under it. */
  lemma BackupFindsRoot(cfg: Config, d: Disk, stamp: string, src: Path, faults: Faults)
    ensures var r := BackupSpec(cfg, d, stamp, src, faults);
      && (r.outcome == Failed(FindRoot) <==> Root(cfg.watchDirs, src) == "")
      && r.outcome != Failed(RelPath)
      && (Root(cfg.watchDirs, src) == "" ==> r.disk == d)
    ensures Root(cfg.watchDirs, src) != "" ==>
      Rel(Root(cfg.watchDirs, src), src).Some? &&
      BackupSpec(cfg, d, stamp, src, faults) ==
        Steps(d, src, Destination(cfg.backupBase, stamp, Rel(Root(cfg.watchDirs, src), src).value), faults)
  {
    var root := Root(cfg.watchDirs, src);
    if root != "" {
      var i := FirstRoot(cfg.watchDirs, src);
      assert i < |cfg.watchDirs| && Accepts(root, src);
      StepsNeverFindRoot(d, src, Destination(cfg.backupBase, stamp, Rel(root, src).value), faults);
    }
  }

  lemma StepsNeverFindRoot(d: Disk, src: Path, dest: Path, faults: Faults)
    ensures Steps(d, src, dest, faults).outcome != Failed(FindRoot)
    ensures Steps(d, src, dest, faults).outcome != Failed(RelPath)
  {
  }

  /** What a failed step leaves on the disk: a failed mkdir changes nothing,
      a failed open or create changes no file, a failed copy leaves the
      destination empty; no file other than the destination ever appears. */
  lemma FailedStepsEffects(d: Disk, src: Path, dest: Path, faults: Faults)
    requires Steps(d, src, dest, faults).outcome.Failed?
    ensures var r := Steps(d, src, dest, faults);
      && (r.outcome.step == MakeDir ==> r.disk == d)
      && (r.outcome.step in {OpenSource, CreateDest} ==> r.disk.files == d.files)
      && (r.outcome.step == CopyData ==> r.disk.files == d.files[LocOf(dest) := []])
      && r.disk.files.Keys <= d.files.Keys + {LocOf(dest)}
  {
  }

  /** A successful backup read the source as a regular file and gave the
      destination its contents; when the source is the destination itself,
      create truncated it first and it ends up empty. No other file changes. */
  lemma CopiedEffects(d: Disk, src: Path, dest: Path, faults: Faults)
    requires Steps(d, src, dest, faults).outcome.Copied?
    ensures var r := Steps(d, src, dest, faults);
      && r.outcome.dest == dest
      && LocOf(src) in d.files
      && r.disk.files == d.files[LocOf(dest) := if LocOf(dest) == LocOf(src) then [] else d.files[LocOf(src)]]
  {
    var d1 := MkdirAllSpec(d, Dir(dest), faults.mkdir).value;
    var d2 := CreateSpec(d1, dest, faults.create).value;
    var d3 := CopySpec(d2, LocOf(dest), LocOf(src), faults.copy).value;
    CreateThenCopy(d.files, d1, d2, d3, LocOf(dest), LocOf(src));
  }

  /** The map reasoning behind CopiedEffects, on the intermediate disks. */
  lemma CreateThenCopy(files: map<Loc, Bytes>, d1: Disk, d2: Disk, d3: Disk, l: Loc, k: Loc)
    requires d1.files == files && l !in d1.dirs && (k in d1.dirs || k in d1.files)
    requires d2 == Disk(d1.dirs, d1.files[l := []])
    requires k in d2.files && d3 == Disk(d2.dirs, d2.files[l := d2.files[k]])
    ensures k in files && d3.files == files[l := if l == k then [] else files[k]]
  {
  }

  /** A successful backup's destination lies inside the snapshot directory:
      its elements are the base's, then the stamp, then those of the source
      below its root. */
  lemma BackupDestination(cfg: Config, d: Disk, stamp: string, src: Path, faults: Faults)
    requires IsName(stamp)
    requires BackupSpec(cfg, d, stamp, src, faults).outcome.Copied?
    ensures var root := Root(cfg.watchDirs, src);
      var rel := Rel(root, src).value;
      var dest := BackupSpec(cfg, d, stamp, src, faults).outcome.dest;
      && dest == Destination(cfg.backupBase, stamp, rel)
      && IsRooted(dest) == IsRooted(cfg.backupBase)
      && Names(dest) == Names(cfg.backupBase) + [stamp] + (if rel == "." then [] else Split(rel))
  {
    BackupFindsRoot(cfg, d, stamp, src, faults);
    var root := Root(cfg.watchDirs, src);
    var rel := Rel(root, src).value;
    var i := FirstRoot(cfg.watchDirs, src);
    assert i < |cfg.watchDirs| && Accepts(root, src);
    AcceptedRelDescends(root, src);
    CopiedEffects(d, src, Destination(cfg.backupBase, stamp, rel), faults);
    JoinSnapshotNames(cfg.backupBase, stamp, rel);
  }

  /** Two backups of the same file under different snapshot names go to
      different destinations. */
  lemma DistinctStampsDistinctDestinations(cfg: Config, d1: Disk, d2: Disk, s1: string, s2: string,
                                           src: Path, f1: Faults, f2: Faults)
    requires IsName(s1) && IsName(s2) && s1 != s2
    requires BackupSpec(cfg, d1, s1, src, f1).outcome.Copied?
    requires BackupSpec(cfg, d2, s2, src, f2).outcome.Copied?
    ensures BackupSpec(cfg, d1, s1, src, f1).outcome.dest != BackupSpec(cfg, d2, s2, src, f2).outcome.dest
    ensures LocOf(BackupSpec(cfg, d1, s1, src, f1).outcome.dest) != LocOf(BackupSpec(cfg, d2, s2, src, f2).outcome.dest)
  {
    BackupDestination(cfg, d1, s1, src, f1);
    BackupDestination(cfg, d2, s2, src, f2);
    var root := Root(cfg.watchDirs, src);
    var i := FirstRoot(cfg.watchDirs, src);
    assert i < |cfg.watchDirs| && Accepts(root, src);
    AcceptedRelDescends(root, src);
    SnapshotsDiffer(cfg.backupBase, s1, s2, Rel(root, src).value);
  }

  /** Two successful backups of the same file at clock readings that differ
      (to the second) land in different snapshot directories, so neither
      overwrites the other. */
  lemma DistinctTimesDistinctDestinations(cfg: Config, d1: Disk, d2: Disk, t1: Timestamp.DateTime, t2: Timestamp.DateTime,
                                          src: Path, f1: Faults, f2: Faults)
    requires Timestamp.Valid(t1) && Timestamp.Valid(t2) && t1 != t2
    requires BackupSpec(cfg, d1, Timestamp.Format(t1), src, f1).outcome.Copied?
    requires BackupSpec(cfg, d2, Timestamp.Format(t2), src, f2).outcome.Copied?
    ensures BackupSpec(cfg, d1, Timestamp.Format(t1), src, f1).outcome.dest
      != BackupSpec(cfg, d2, Timestamp.Format(t2), src, f2).outcome.dest
    ensures LocOf(BackupSpec(cfg, d1, Timestamp.Format(t1), src, f1).outcome.dest)
      != LocOf(BackupSpec(cfg, d2, Timestamp.Format(t2), src, f2).outcome.dest)
  {
    Timestamp.FormatIsName(t1);
    Timestamp.FormatIsName(t2);
    if Timestamp.Format(t1) == Timestamp.Format(t2) {
      Timestamp.FormatInjective(t1, t2);
      assert false;
    }
    DistinctStampsDistinctDestinations(cfg, d1, d2, Timestamp.Format(t1), Timestamp.Format(t2), src, f1, f2);
  }

  /** Because mkdir runs before the source is opened, a source that has
      vanished (and is not itself one of the directories mkdir makes) fails at
      open after the destination's directory chain has been made. */
  lemma VanishedSourceStopsAtOpen(d: Disk, src: Path, dest: Path, faults: Faults)
    requires Valid(d) && !faults.mkdir
    requires LocOf(src) !in d.dirs && LocOf(src) !in d.files
    requires LocOf(src) !in Chain(LocOf(Dir(dest)))
    requires forall a :: a in Chain(LocOf(Dir(dest))) ==> a !in d.files
    ensures var r := Steps(d, src, dest, faults);
      && r.outcome == Failed(OpenSource)
      && r.disk == Disk(d.dirs + Chain(LocOf(Dir(dest))), d.files)
      && Valid(r.disk)
  {
    MkdirAllFailsOnlyOnFile(d, Dir(dest), false);
    MkdirAllKeepsValid(d, Dir(dest), false);
  }

  /** A backup of a vanished file below a watched directory (not the
      watched directory itself) fails at open but still leaves the snapshot
      directory, the base followed by the stamp, behind. */
  lemma VanishedSourceLeavesSnapshotDir(cfg: Config, d: Disk, stamp: string, src: Path, faults: Faults)
    requires Valid(d) && !faults.mkdir && IsName(stamp)
    requires Root(cfg.watchDirs, src) != "" && Rel(Root(cfg.watchDirs, src), src) != Some(".")
    requires LocOf(src) !in d.dirs && LocOf(src) !in d.files
    requires var dest := Destination(cfg.backupBase, stamp, Rel(Root(cfg.watchDirs, src), src).value);
      && LocOf(src) !in Chain(LocOf(Dir(dest)))
      && forall a :: a in Chain(LocOf(Dir(dest))) ==> a !in d.files
    ensures var r := BackupSpec(cfg, d, stamp, src, faults);
      && r.outcome == Failed(OpenSource)
      && Loc(IsRooted(cfg.backupBase), Names(cfg.backupBase) + [stamp]) in r.disk.dirs
      && r.disk.files == d.files
      && Valid(r.disk)
  {
    var root := Root(cfg.watchDirs, src);
    var i := FirstRoot(cfg.watchDirs, src);
    assert i < |cfg.watchDirs| && Accepts(root, src);
    var rel := Rel(root, src).value;
    var dest := Destination(cfg.backupBase, stamp, rel);
    BackupFindsRoot(cfg, d, stamp, src, faults);
    AcceptedRelDescends(root, src);
    SnapshotDirOnTheWay(cfg.backupBase, stamp, rel);
    VanishedSourceStopsAtOpen(d, src, dest, faults);
  }

  /** When the changed path is a watched directory itself, its relative
      path is "." and the destination is the snapshot directory, so mkdir
      makes only the backup base: the snapshot directory does not appear. */
  lemma WatchedDirSourceMakesOnlyBase(base: Path, stamp: string)
    requires IsName(stamp)
    ensures LocOf(Dir(Destination(base, stamp, "."))) == LocOf(base)
  {
    DirOfSnapshotDest(base, stamp, ".");
    var all := Names(base) + [stamp];
    assert all[..|all| - 1] == Names(base);
  }

  /** mkdir of a destination's directory makes the snapshot directory,
      unless the relative path is ".". */
  lemma SnapshotDirOnTheWay(base: Path, stamp: string, rel: Path)
    requires IsName(stamp) && rel != "." && AllNames(Split(rel))
    ensures Loc(IsRooted(base), Names(base) + [stamp]) in Chain(LocOf(Dir(Destination(base, stamp, rel))))
  {
    DirOfSnapshotDest(base, stamp, rel);
    var l := LocOf(Dir(Destination(base, stamp, rel)));
    var names := Names(base) + [stamp];
    var all := names + Split(rel);
    assert l.rooted == IsRooted(base) && l.names == all[..|all| - 1];
    assert l.names[..|names|] == names;
    PrefixInChain(l, names);
  }

  /** Every non-empty leading part of a location's names is on its chain. */
  lemma PrefixInChain(l: Loc, names: seq<string>)
    requires 0 < |names| <= |l.names| && l.names[..|names|] == names
    ensures Loc(l.rooted, names) in Chain(l)
  {
    assert Loc(l.rooted, l.names[..|names|]) in Chain(l);
  }

  /** The steps keep the disk a well-formed tree, whatever the outcome. */
  lemma StepsKeepValid(d: Disk, src: Path, dest: Path, faults: Faults)
    requires Valid(d)
    ensures Valid(Steps(d, src, dest, faults).disk)
  {
    if MkdirAllSpec(d, Dir(dest), faults.mkdir).Some? {
      MkdirAllKeepsValid(d, Dir(dest), faults.mkdir);
      var d1 := MkdirAllSpec(d, Dir(dest), faults.mkdir).value;
      if OpenSpec(d1, src, faults.open) && CreateSpec(d1, dest, faults.create).Some? {
        CreateKeepsValid(d1, dest, faults.create);
        var d2 := CreateSpec(d1, dest, faults.create).value;
        if CopySpec(d2, LocOf(dest), LocOf(src), faults.copy).Some? {
          CopyKeepsValid(d2, LocOf(dest), LocOf(src), faults.copy);
        }
      }
    }
  }

  /** So does a whole backup. */
  lemma BackupKeepsValid(cfg: Config, d: Disk, stamp: string, src: Path, faults: Faults)
    requires Valid(d)
    ensures Valid(BackupSpec(cfg, d, stamp, src, faults).disk)
  {
    BackupFindsRoot(cfg, d, stamp, src, faults);
    var root := Root(cfg.watchDirs, src);
    if root != "" {
      StepsKeepValid(d, src, Destination(cfg.backupBase, stamp, Rel(root, src).value), faults);
    }
  }
}
