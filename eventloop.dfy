/** The select loop of run in both builds: program.go's service goroutine
    and the goroutine main.go starts. The watcher and its two channels are an
    input sequence: each element is one value received by the select, in the
    order received. The loop reads inputs until one of them closes a channel
    (or, in the service build, until `done` is received); an event with the
    Create or Write bit is either ignored or backed up, and nothing a backup
    or a watcher error does ends the loop. */
module EventLoop {
  import opened Paths
  import Timestamp
  import opened FileSystem
  import opened Backup

  /** fsnotify's Op bits. */
  const CreateOp: bv32 := 1
  const WriteOp: bv32 := 2
  const RemoveOp: bv32 := 4
  const RenameOp: bv32 := 8
  const ChmodOp: bv32 := 16

  /** One value received by the select. An event carries what the world does
      while it is handled: the wall-clock reading backup takes its snapshot
      name from, and the faults the file system injects into its steps. */
  datatype Input =
    | Event(op: bv32, name: Path, now: Timestamp.DateTime, faults: Faults)
    | WatchError
    | EventsClosed
    | ErrorsClosed
    | Done

  /** What the loop does with an input, as its log records it. */
  datatype Action =
    | IgnoredEvent(name: Path)
    | BackedUp(name: Path, outcome: Outcome)
    | ReportedError

  /** The disk after an input, and the actions it caused. */
  datatype Handled = Handled(disk: Disk, actions: seq<Action>)

  /** The loop after some inputs: the disk, the log, how many inputs it
      received, and whether it returned. */
  datatype Trace = Trace(disk: Disk, log: seq<Action>, consumed: nat, stopped: bool)

  predicate Relevant(op: bv32)
  {
    op & (CreateOp | WriteOp) != 0
  }

  /** The inputs that make run return. `done` is only read by the service
      build; the foreground build's select has no such case, so a Done never
      reaches it. */
  predicate Stops(service: bool, x: Input)
  {
    x.EventsClosed? || x.ErrorsClosed? || (service && x.Done?)
  }

  /** One turn of the loop on an input that does not end it: the disk
      afterwards and the actions it logs. */
  type Handler = (Disk, Input) -> Handled

  /** The names of an input the loop should back up: an event with the
      Create or Write bit that the ignore patterns let through. */
  function Wanted(patterns: seq<string>, x: Input): seq<Path>
  {
    if x.Event? && Relevant(x.op) && !Ignored(patterns, x.name) then [x.name] else []
  }

  /** What run's select does with an input that does not end the loop. */
  function Handle(cfg: Config, d: Disk, x: Input): Handled
  {
    match x
    case Event(op, name, now, faults) =>
      if !Relevant(op) then Handled(d, [])
      else if Ignored(cfg.ignorePatterns, name) then Handled(d, [IgnoredEvent(name)])
      else
        var r := BackupSpec(cfg, d, Timestamp.Format(now), name, faults);
        Handled(r.disk, [BackedUp(name, r.outcome)])
    case WatchError => Handled(d, [ReportedError])
    case _ => Handled(d, [])
  }

  /** An event that only removes, renames or changes the mode of a file is
      skipped: no log entry and no change to the disk. */
  lemma OtherOpsAreSkipped(cfg: Config, d: Disk, x: Input)
    requires x.Event? && x.op & (RemoveOp | RenameOp | ChmodOp) == x.op
    ensures !Relevant(x.op) && Handle(cfg, d, x) == Handled(d, [])
  {
  }

  function HandlerOf(cfg: Config): Handler
  {
    (d: Disk, x: Input) => Handle(cfg, d, x)
  }

  /** The loop after receiving `inputs`, one after another, each turn done
      by `handle`. Once an input has ended it, later inputs are never
      received. When the inputs run out before one ends the loop, it is
      still waiting. */
  function RunWith(handle: Handler, service: bool, d: Disk, inputs: seq<Input>): Trace
    decreases |inputs|
  {
    if |inputs| == 0 then Trace(d, [], 0, false)
    else
      var r := RunWith(handle, service, d, inputs[..|inputs| - 1]);
      var x := inputs[|inputs| - 1];
      if r.stopped then r
      else if Stops(service, x) then Trace(r.disk, r.log, r.consumed + 1, true)
      else
        var h := handle(r.disk, x);
        Trace(h.disk, r.log + h.actions, r.consumed + 1, false)
  }

  /** run's loop with this configuration. */
  function RunSpec(cfg: Config, service: bool, d: Disk, inputs: seq<Input>): Trace
  {
    RunWith(HandlerOf(cfg), service, d, inputs)
  }

  /** The select loop, reading `inputs` in order. */
  method Run(cfg: Config, service: bool, fs: FileSystem, inputs: seq<Input>)
    returns (log: seq<Action>, consumed: nat, stopped: bool)
    modifies fs
    ensures RunSpec(cfg, service, old(fs.Snapshot()), inputs) == Trace(fs.Snapshot(), log, consumed, stopped)
  {
    log, consumed, stopped := [], 0, false;
    ghost var handle := HandlerOf(cfg);
    var i := 0;
    while i < |inputs|
      invariant 0 <= i <= |inputs|
      invariant RunWith(handle, service, old(fs.Snapshot()), inputs[..i]) == Trace(fs.Snapshot(), log, i, false)
    {
      var x := inputs[i];
      ghost var d := fs.Snapshot();
      if Stops(service, x) {
        StopStep(handle, service, old(fs.Snapshot()), inputs, i, d, log);
        StoppedStays(handle, service, old(fs.Snapshot()), inputs, i + 1);
        return log, i + 1, true;
      }
      var acts := Dispatch(cfg, fs, x);
      HandleStep(handle, service, old(fs.Snapshot()), inputs, i, d, log, fs.Snapshot(), acts);
      log := log + acts;
      i := i + 1;
    }
    assert inputs[..i] == inputs;
    return log, i, false;
  }

  /** The body of one select case that does not return. */
  method Dispatch(cfg: Config, fs: FileSystem, x: Input) returns (acts: seq<Action>)
    modifies fs
    ensures Handle(cfg, old(fs.Snapshot()), x) == Handled(fs.Snapshot(), acts)
  {
    acts := [];
    match x {
      case Event(op, name, now, faults) =>
        if Relevant(op) {
          var ignore := ShouldIgnore(cfg.ignorePatterns, name);
          if ignore {
            acts := [IgnoredEvent(name)];
          } else {
            var dest, err := Backup.Backup(cfg, fs, now, name, faults);
            acts := [BackedUp(name, if err.None? then Copied(dest) else Failed(err.value))];
          }
        }
      case WatchError =>
        acts := [ReportedError];
      case _ =>
    }
  }

  // ---------------------------------------------------------------- the loop's control, for any turn

  /** The loop, still running after `i` inputs, returns at a closing one. */
  lemma StopStep(handle: Handler, service: bool, d0: Disk, inputs: seq<Input>, i: nat, d: Disk, log: seq<Action>)
    requires i < |inputs| && Stops(service, inputs[i])
    requires RunWith(handle, service, d0, inputs[..i]) == Trace(d, log, i, false)
    ensures RunWith(handle, service, d0, inputs[..i + 1]) == Trace(d, log, i + 1, true)
  {
    assert inputs[..i + 1][..i] == inputs[..i];
  }

  /** The loop, still running after `i` inputs, handles the next one. */
  lemma HandleStep(handle: Handler, service: bool, d0: Disk, inputs: seq<Input>, i: nat, d: Disk, log: seq<Action>,
                   d': Disk, acts: seq<Action>)
    requires i < |inputs| && !Stops(service, inputs[i])
    requires RunWith(handle, service, d0, inputs[..i]) == Trace(d, log, i, false)
    requires handle(d, inputs[i]) == Handled(d', acts)
    ensures RunWith(handle, service, d0, inputs[..i + 1]) == Trace(d', log + acts, i + 1, false)
  {
    assert inputs[..i + 1][..i] == inputs[..i];
  }

  /** Once the loop has returned, nothing that arrives later changes it. */
  lemma {:induction false} StoppedStays(handle: Handler, service: bool, d: Disk, inputs: seq<Input>, k: nat)
    requires k <= |inputs| && RunWith(handle, service, d, inputs[..k]).stopped
    ensures RunWith(handle, service, d, inputs) == RunWith(handle, service, d, inputs[..k])
    decreases |inputs| - k
  {
    if k < |inputs| {
      var n := |inputs|;
      assert inputs[..n - 1][..k] == inputs[..k];
      StoppedStays(handle, service, d, inputs[..n - 1], k);
    } else {
      assert inputs[..k] == inputs;
    }
  }

  /** The loop returns exactly at the first input that closes a channel (or
      delivers `done` to the service); until then it receives every input,
      whatever a turn does: failed backups and watcher errors never end it. */
  lemma {:induction false} RunStopsOnlyOnClose(handle: Handler, service: bool, d: Disk, inputs: seq<Input>)
    ensures var r := RunWith(handle, service, d, inputs);
      && r.consumed <= |inputs|
      && (r.stopped ==> r.consumed > 0 && Stops(service, inputs[r.consumed - 1]))
      && (!r.stopped ==> r.consumed == |inputs|)
      && (forall j :: 0 <= j < r.consumed - 1 ==> !Stops(service, inputs[j]))
      && (!r.stopped ==> forall j :: 0 <= j < |inputs| ==> !Stops(service, inputs[j]))
    decreases |inputs|
  {
    if |inputs| > 0 {
      var n := |inputs|;
      var front := inputs[..n - 1];
      RunStopsOnlyOnClose(handle, service, d, front);
      assert forall j :: 0 <= j < n - 1 ==> front[j] == inputs[j];
    }
  }

  /** The names the log shows a backup attempt for, in order. */
  function Attempts(log: seq<Action>): seq<Path>
    decreases |log|
  {
    if |log| == 0 then []
    else (if log[0].BackedUp? then [log[0].name] else []) + Attempts(log[1..])
  }

  lemma {:induction false} AttemptsAppend(a: seq<Action>, b: seq<Action>)
    ensures Attempts(a + b) == Attempts(a) + Attempts(b)
    decreases |a|
  {
    if |a| > 0 {
      AttemptsAppend(a[1..], b);
      assert (a + b)[0] == a[0] && (a + b)[1..] == a[1..] + b;
    } else {
      assert a + b == b;
    }
  }

  /** `f` applied to each input, concatenated in order. */
  function Collect(f: Input -> seq<Path>, inputs: seq<Input>): seq<Path>
    decreases |inputs|
  {
    if |inputs| == 0 then []
    else Collect(f, inputs[..|inputs| - 1]) + f(inputs[|inputs| - 1])
  }

  /** A turn that attempts a backup exactly for the names `wanted` gives an
      input, where an input that ends the loop is wanted for nothing. */
  ghost predicate AttemptsExactly(handle: Handler, service: bool, wanted: Input -> seq<Path>)
  {
    && (forall d, x :: Attempts(handle(d, x).actions) == wanted(x))
    && (forall x :: Stops(service, x) ==> wanted(x) == [])
  }

  /** When every turn attempts a backup exactly for what is wanted, the loop
      attempts backups for exactly what is wanted among the inputs it
      received, in the order received. */
  lemma {:induction false} RunAttempts(handle: Handler, service: bool, wanted: Input -> seq<Path>,
                                       d: Disk, inputs: seq<Input>)
    requires AttemptsExactly(handle, service, wanted)
    ensures var r := RunWith(handle, service, d, inputs);
      r.consumed <= |inputs| && Attempts(r.log) == Collect(wanted, inputs[..r.consumed])
    decreases |inputs|
  {
    if |inputs| == 0 {
      assert inputs[..0] == [];
    } else {
      var n := |inputs|;
      var front := inputs[..n - 1];
      var x := inputs[n - 1];
      RunAttempts(handle, service, wanted, d, front);
      RunStopsOnlyOnClose(handle, service, d, front);
      var r := RunWith(handle, service, d, front);
      if r.stopped {
        assert inputs[..r.consumed] == front[..r.consumed];
      } else {
        assert front[..r.consumed] == front && inputs[..n] == inputs && inputs[..n][..n - 1] == front;
        if !Stops(service, x) {
          AttemptsAppend(r.log, handle(r.disk, x).actions);
        }
      }
    }
  }

  /** A turn whose actions all agree with the ignore patterns. */
  ghost predicate DecidesRight(handle: Handler, patterns: seq<string>)
  {
    forall d, x, a :: a in handle(d, x).actions ==> Agrees(patterns, a)
  }

  /** An action the ignore patterns agree with: "Ignored" only for a name
      they match, a backup only for one they do not. */
  predicate Agrees(patterns: seq<string>, a: Action)
  {
    && (a.IgnoredEvent? ==> Ignored(patterns, a.name))
    && (a.BackedUp? ==> !Ignored(patterns, a.name))
  }

  lemma {:induction false} RunDecidesRight(handle: Handler, patterns: seq<string>, service: bool, d: Disk, inputs: seq<Input>)
    requires DecidesRight(handle, patterns)
    ensures forall a :: a in RunWith(handle, service, d, inputs).log ==> Agrees(patterns, a)
    decreases |inputs|
  {
    if |inputs| > 0 {
      RunDecidesRight(handle, patterns, service, d, inputs[..|inputs| - 1]);
    }
  }

  /** A turn that keeps the disk a well-formed tree. */
  ghost predicate KeepsValid(handle: Handler)
  {
    forall d, x :: Valid(d) ==> Valid(handle(d, x).disk)
  }

  lemma {:induction false} RunKeepsValidWith(handle: Handler, service: bool, d: Disk, inputs: seq<Input>)
    requires KeepsValid(handle) && Valid(d)
    ensures Valid(RunWith(handle, service, d, inputs).disk)
    decreases |inputs|
  {
    if |inputs| > 0 {
      RunKeepsValidWith(handle, service, d, inputs[..|inputs| - 1]);
    }
  }

  // ---------------------------------------------------------------- run's own turn

  function WantedIn(patterns: seq<string>): Input -> seq<Path>
  {
    (x: Input) => Wanted(patterns, x)
  }

  /** A turn of run attempts a backup exactly for a wanted input. */
  lemma HandleAttemptsWanted(cfg: Config, service: bool)
    ensures AttemptsExactly(HandlerOf(cfg), service, WantedIn(cfg.ignorePatterns))
  {
    forall d, x
      ensures Attempts(Handle(cfg, d, x).actions) == Wanted(cfg.ignorePatterns, x)
    {
      var acts := Handle(cfg, d, x).actions;
      if |acts| > 0 {
        assert acts[1..] == [];
      }
    }
  }

  /** A turn of run logs "Ignored" only for a name the patterns match, and
      attempts a backup only for one they do not. */
  lemma HandleDecidesRight(cfg: Config)
    ensures DecidesRight(HandlerOf(cfg), cfg.ignorePatterns)
  {
    forall d, x, a | a in Handle(cfg, d, x).actions
      ensures Agrees(cfg.ignorePatterns, a)
    {
      var acts := Handle(cfg, d, x).actions;
      assert |acts| == 1 && a == acts[0];
    }
  }

  /** A turn of run keeps the disk a well-formed tree. */
  lemma HandleKeepsValid(cfg: Config)
    ensures KeepsValid(HandlerOf(cfg))
  {
    forall d, x | Valid(d)
      ensures Valid(Handle(cfg, d, x).disk)
    {
      if x.Event? && Relevant(x.op) && !Ignored(cfg.ignorePatterns, x.name) {
        BackupKeepsValid(cfg, d, Timestamp.Format(x.now), x.name, x.faults);
      }
    }
  }

  /** Backup is attempted for exactly the wanted events among the inputs
      run received, in the order received, each once: an ignored name never
      reaches backup, and an event without the Create or Write bit is passed
      over. */
  lemma RunAttemptsWanted(cfg: Config, service: bool, d: Disk, inputs: seq<Input>)
    ensures var r := RunSpec(cfg, service, d, inputs);
      r.consumed <= |inputs| && Attempts(r.log) == Collect(WantedIn(cfg.ignorePatterns), inputs[..r.consumed])
  {
    HandleAttemptsWanted(cfg, service);
    RunAttempts(HandlerOf(cfg), service, WantedIn(cfg.ignorePatterns), d, inputs);
  }

  /** run's log says "Ignored" only for events whose name an ignore pattern
      matches, and reports backups only for the others. */
  lemma LoggedDecisionsAreRight(cfg: Config, service: bool, d: Disk, inputs: seq<Input>)
    ensures forall a :: a in RunSpec(cfg, service, d, inputs).log ==> Agrees(cfg.ignorePatterns, a)
  {
    HandleDecidesRight(cfg);
    RunDecidesRight(HandlerOf(cfg), cfg.ignorePatterns, service, d, inputs);
  }

  /** Whatever run receives, the disk stays a well-formed tree. */
  lemma RunKeepsValid(cfg: Config, service: bool, d: Disk, inputs: seq<Input>)
    requires Valid(d)
    ensures Valid(RunSpec(cfg, service, d, inputs).disk)
  {
    HandleKeepsValid(cfg);
    RunKeepsValidWith(HandlerOf(cfg), service, d, inputs);
  }
}
