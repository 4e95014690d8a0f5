/** What run does before its select loop: registering every watched
    directory with the watcher. The service build (program.go) logs a failed
    Add and goes on with the next directory; the foreground build (main.go)
    gives up with exit code 1 at the first failure, as it does when the
    configuration cannot be loaded or the watcher cannot be created. */
module Startup {
  import opened Paths
  import opened Backup

  /** The watch list of an fsnotify watcher. Add fails on the directories
      the operating system refuses to watch (missing, unreadable, over the
      inotify limit); which those are is a parameter of the model. */
  class Watcher {
    var watched: set<Path>
    const refused: set<Path>

    constructor (refused: set<Path>)
      ensures watched == {} && this.refused == refused
    {
      watched := {};
      this.refused := refused;
    }

    method Add(dir: Path) returns (ok: bool)
      modifies this
      ensures ok == (dir !in refused)
      ensures watched == if ok then old(watched) + {dir} else old(watched)
    {
      ok := dir !in refused;
      if ok {
        watched := watched + {dir};
      }
    }
  }

  /** A line of the startup log. */
  datatype Note = WatchFailed(dir: Path) | Watching(dir: Path)

  // ---------------------------------------------------------------- program.go

  /** What program.go logs for one directory: the failure if Add refused
      it, then "Watching" in every case. */
  function NotesFor(refused: set<Path>, dir: Path): seq<Note>
  {
    (if dir in refused then [WatchFailed(dir)] else []) + [Watching(dir)]
  }

  /** program.go's startup log for the directories in order. */
  function ServiceNotes(refused: set<Path>, dirs: seq<Path>): seq<Note>
    decreases |dirs|
  {
    if |dirs| == 0 then []
    else ServiceNotes(refused, dirs[..|dirs| - 1]) + NotesFor(refused, dirs[|dirs| - 1])
  }

  /** program.go's loop over WatchDirs: every directory is tried, whatever
      happened to the ones before it. */
  method WatchService(w: Watcher, dirs: seq<Path>) returns (notes: seq<Note>)
    modifies w
    ensures notes == ServiceNotes(w.refused, dirs)
    ensures w.watched == old(w.watched) + (set d | d in dirs && d !in w.refused)
  {
    notes := [];
    var i := 0;
    while i < |dirs|
      invariant 0 <= i <= |dirs|
      invariant notes == ServiceNotes(w.refused, dirs[..i])
      invariant w.watched == old(w.watched) + (set d | d in dirs[..i] && d !in w.refused)
    {
      var dir := dirs[i];
      assert dirs[..i + 1][..i] == dirs[..i];
      assert forall d :: d in dirs[..i + 1] <==> d in dirs[..i] || d == dir;
      var ok := w.Add(dir);
      if !ok {
        notes := notes + [WatchFailed(dir)];
      }
      notes := notes + [Watching(dir)];
      i := i + 1;
    }
    assert dirs[..i] == dirs;
  }

  /** The directories a log reports as being watched, in order. */
  function WatchingDirs(notes: seq<Note>): seq<Path>
    decreases |notes|
  {
    if |notes| == 0 then []
    else
      var n := notes[|notes| - 1];
      WatchingDirs(notes[..|notes| - 1]) + if n.Watching? then [n.dir] else []
  }

  lemma {:induction false} WatchingDirsAppend(a: seq<Note>, b: seq<Note>)
    ensures WatchingDirs(a + b) == WatchingDirs(a) + WatchingDirs(b)
    decreases |b|
  {
    if |b| == 0 {
      assert a + b == a;
    } else {
      WatchingDirsAppend(a, b[..|b| - 1]);
      assert (a + b)[..|a + b| - 1] == a + b[..|b| - 1];
    }
  }

  /** program.go logs "Watching" for every configured directory, in order,
      including the ones Add refused. */
  lemma {:induction false} ServiceLogsEveryDir(refused: set<Path>, dirs: seq<Path>)
    ensures WatchingDirs(ServiceNotes(refused, dirs)) == dirs
    decreases |dirs|
  {
    if |dirs| > 0 {
      var n := |dirs|;
      var dir := dirs[n - 1];
      ServiceLogsEveryDir(refused, dirs[..n - 1]);
      WatchingDirsAppend(ServiceNotes(refused, dirs[..n - 1]), NotesFor(refused, dir));
      NotesForReportWatching(refused, dir);
      assert dirs[..n - 1] + [dir] == dirs;
    }
  }

  lemma NotesForReportWatching(refused: set<Path>, dir: Path)
    ensures WatchingDirs(NotesFor(refused, dir)) == [dir]
  {
    var own := NotesFor(refused, dir);
    if dir in refused {
      assert own == [WatchFailed(dir), Watching(dir)];
      assert own[..1] == [WatchFailed(dir)];
      assert own[..1][..0] == [];
      assert WatchingDirs(own[..1]) == [];
    } else {
      assert own[..0] == [];
    }
  }

  /** program.go logs a failure exactly for the configured directories Add
      refused. */
  lemma {:induction false} ServiceReportsRefused(refused: set<Path>, dirs: seq<Path>, dir: Path)
    ensures WatchFailed(dir) in ServiceNotes(refused, dirs) <==> dir in dirs && dir in refused
    decreases |dirs|
  {
    if |dirs| > 0 {
      var n := |dirs|;
      ServiceReportsRefused(refused, dirs[..n - 1], dir);
      assert dir in dirs <==> dir in dirs[..n - 1] || dir == dirs[n - 1] by {
        assert dirs == dirs[..n - 1] + [dirs[n - 1]];
      }
    }
  }

  // ---------------------------------------------------------------- main.go

  /** The position of the first directory Add refuses, or |dirs|. */
  function FirstRefused(refused: set<Path>, dirs: seq<Path>): (k: nat)
    ensures k <= |dirs|
    ensures k < |dirs| ==> dirs[k] in refused
    ensures forall j :: 0 <= j < k ==> dirs[j] !in refused
    decreases |dirs|
  {
    if |dirs| == 0 || dirs[0] in refused then 0 else 1 + FirstRefused(refused, dirs[1..])
  }

  /** main.go's loop over WatchDirs: stops at the first directory Add
      refuses, so the later ones are never tried. */
  method WatchForeground(w: Watcher, dirs: seq<Path>) returns (ok: bool)
    modifies w
    ensures ok == (FirstRefused(w.refused, dirs) == |dirs|)
    ensures w.watched == old(w.watched) + (set d | d in dirs[..FirstRefused(w.refused, dirs)])
  {
    var i := 0;
    while i < |dirs|
      invariant i <= FirstRefused(w.refused, dirs)
      invariant w.watched == old(w.watched) + (set d | d in dirs[..i])
    {
      var dir := dirs[i];
      assert forall d :: d in dirs[..i + 1] <==> d in dirs[..i] || d == dir;
      ok := w.Add(dir);
      if !ok {
        return false;
      }
      i := i + 1;
    }
    return true;
  }

  /** How main.go's run ends: with an exit code, or blocked on a `done`
      channel that nothing ever sends to, while the event goroutine runs. */
  datatype Exit = ExitCode(code: int) | Blocked

  /** main.go's run up to its select loop. `config` is what loadConfig
      read (None when it failed), `watcherOk` whether NewWatcher succeeded. */
  function ForegroundExit(config: Option<Config>, watcherOk: bool, refused: set<Path>): Exit
  {
    if config.None? then ExitCode(1)
    else if !watcherOk then ExitCode(1)
    else if FirstRefused(refused, config.value.watchDirs) < |config.value.watchDirs| then ExitCode(1)
    else Blocked
  }

  method RunForeground(config: Option<Config>, watcherOk: bool, w: Watcher) returns (exit: Exit)
    modifies w
    ensures exit == ForegroundExit(config, watcherOk, w.refused)
    ensures config.None? || !watcherOk ==> w.watched == old(w.watched)
    ensures config.Some? && watcherOk ==>
      var dirs := config.value.watchDirs;
      w.watched == old(w.watched) + (set d | d in dirs[..FirstRefused(w.refused, dirs)])
  {
    if config.None? {
      return ExitCode(1);
    }
    if !watcherOk {
      return ExitCode(1);
    }
    var ok := WatchForeground(w, config.value.watchDirs);
    if !ok {
      return ExitCode(1);
    }
    return Blocked;
  }

  /** main.go exits with 1 exactly when the configuration cannot be read,
      the watcher cannot be made, or some configured directory cannot be
      watched; it never exits with 0, since nothing sends to `done`. */
  lemma ForegroundExitsOnFailure(config: Option<Config>, watcherOk: bool, refused: set<Path>)
    ensures ForegroundExit(config, watcherOk, refused) != ExitCode(0)
    ensures ForegroundExit(config, watcherOk, refused) == ExitCode(1) <==>
      config.None? || !watcherOk || exists d :: d in config.value.watchDirs && d in refused
  {
    if config.Some? && watcherOk {
      var dirs := config.value.watchDirs;
      var k := FirstRefused(refused, dirs);
      if exists d :: d in dirs && d in refused {
        var d :| d in dirs && d in refused;
        var j :| 0 <= j < |dirs| && dirs[j] == d;
        assert k <= j;
      }
    }
  }
}
