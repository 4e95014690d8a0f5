# go-auto-file-backup, modelled in Dafny

go-auto-file-backup watches a list of directories. When a file in them is
created or written, it copies the file into a fresh snapshot directory
named after the current time, under a configured backup base. The same
pipeline exists twice:

- `program.go` is the build that runs as an operating-system service. `Stop` sends to `done`.
- `main.go` is the foreground build.

This project models that pipeline and proves its properties.

- **Paths** (`paths.dfy`): Go's `path/filepath` on Unix, worked out on path elements. It covers `Clean`, `Join`, `Rel`, `Base` and `Dir`, with `strings.HasPrefix` and a `strings.Split`-style splitter on '/' that the others use.
- **Glob** (`glob.dfy`): `filepath.Match` written the way Go computes it. Patterns are cut into chunks at stars, `matchChunk` runs with its `failed` flag, and a star retries its chunk at later positions.
- **GlobTheory** (`globtheory.dfy`): a reference meaning of patterns (`Compile` and `GlobMatch`). It proves that `Match` agrees with it on names without a separator, and that `Match` reports `ErrBadPattern` exactly on malformed patterns.
- **Timestamp** (`timestamp.dfy`): `time.Format` with the layout `2006-01-02_15-04-05`, plus a parser that inverts it.
- **FileSystem** (`filesystem.dfy`): an abstract disk, made of a set of directories and a map from file to bytes. It has the four calls the backup makes: `os.MkdirAll`, `os.Open`, `os.Create` and `io.Copy`. Each call takes an injected fault flag.
- **Backup** (`backup.dfy`): `shouldIgnore`, the watch-root loop, and `backup`'s steps. They are written as methods, each proved against a specification function.
- **EventLoop** (`eventloop.dfy`): `run`'s select loop as a method over a sequence of inputs. The inputs are events, watcher errors, the two channel closings and `done`. The `service` flag chooses between the two builds: only `program.go` has `done`.
- **Startup** (`startup.dfy`): the watch-directory loops of both builds. `program.go` logs a failed `Add` and goes on. `main.go`'s `run` returns 1 at the first failure, as it does when the configuration or the watcher cannot be set up.

The watch-root test is a string test, as the code writes it. A relative
path is rejected when its text starts with `..`, so a file named `..cfg`
directly under a watched directory is rejected too (`ChildAcceptedUnlessDotDot`).
A test on the first path element would behave differently. The model
follows the code.

## Model

| member | source | states |
|---|---|---|
| Backup.ShouldIgnore | program.go:106-115 | the answer is whether some pattern matches the last element of the path |
| Backup.MatchAny | program.go:108-114 | patterns are tried in order, the loop returns true at the first match, and a pattern that errors counts as no match |
| Backup.AnyPatternMatchesSome | main.go:99-105 | trying patterns in order until one matches is the same as asking whether any pattern in the list matches; an empty list matches nothing |
| Backup.AnyPatternMatchesMeaning | program.go:108-111 | for a name without '/' and for the name "/", a name is matched exactly when some well-formed pattern in the list matches it under the reference meaning |
| Backup.IgnoredMeaning | program.go:106-110 | every path, including "/" and other paths made only of separators, is ignored exactly when some well-formed pattern matches its last element under the reference meaning |
| Backup.MalformedPatternIsInert | main.go:100-102 | removing a malformed pattern from the list never changes whether a name is ignored |
| Backup.IgnoreSeesOnlyTheName | main.go:97-98 | the directories above a file never affect whether it is ignored |
| GlobTheory.MatchAgreesOnRoot | program.go:107-109 | on the name "/" (the base of a path made only of separators), filepath.Match on a well-formed pattern returns no error and "matched" exactly when the reference meaning matches |
| GlobTheory.MatchAgrees | program.go:109 | filepath.Match on a well-formed pattern returns no error, and returns "matched" exactly when the reference meaning matches |
| GlobTheory.MatchBadIffMalformed | program.go:109-110 | filepath.Match returns ErrBadPattern exactly when the pattern is malformed, whatever the name |
| GlobTheory.CheckRestIsCompile | main.go:100 | the final scan of the remaining chunks reports an error exactly on a malformed rest, and otherwise gives "no match" |
| GlobTheory.MatchChunkIsFixed | program.go:109 | matchChunk on a well-formed chunk consumes exactly the fixed elements the chunk compiles to, and reports Bad on a malformed one even after a mismatch |
| GlobTheory.ClassMatchIsParse | main.go:100 | the bracket-expression loop accepts exactly the ranges the reference parser reads, and reports membership in them |
| Backup.FirstRoot | program.go:120-126 | the chosen index is within the list and the directory there accepts the source |
| Backup.FirstRootIsLeast | program.go:121-125 | no directory before the chosen one accepts the source, so the first match in list order wins |
| Backup.ResolveRoot | program.go:120-126 | the loop leaves the first accepting directory in list order, or "" when none accepts |
| Backup.RootItselfIsAccepted | program.go:122 | a source equal to a watched directory after cleaning is accepted, with relative path "." |
| Backup.ChildAcceptedUnlessDotDot | main.go:113 | a file directly under a directory has its name as relative path; it is accepted exactly when the name does not start with ".." |
| Backup.AcceptedRootContainsSource | main.go:112-116 | an accepted root contains the source: it is the same path, or the source is the root followed by the plain names of the relative path |
| Backup.Backup | program.go:117-168 | backup returns the destination, or "" and the step that failed; the disk changes as the step sequence specifies |
| Backup.BackupFindsRoot | program.go:127-134 | backup fails at the root search exactly when the root loop leaves "" (no root, or an empty entry chosen), and then nothing is touched; Rel never fails after an accepted root |
| Backup.FailedStepsEffects | program.go:137-165 | a failed mkdir changes nothing, a failed open or create changes no file, a failed copy leaves an empty destination, and no file but the destination appears |
| Backup.CopiedEffects | program.go:152-167 | a successful backup returns the destination, which then holds the source's contents, and no other file changes |
| Backup.BackupDestination | program.go:131-136 | the destination is Join(base, stamp, rel), and its elements are the base's, then the stamp, then the source's below its root |
| Backup.DistinctStampsDistinctDestinations | program.go:136 | backups of one file under different snapshot names go to different destinations, which name different locations on the disk |
| Backup.DistinctTimesDistinctDestinations | program.go:118-136 | backups of one file at clock readings that differ to the second go to different destination paths that name different locations on the disk, so neither overwrites the other |
| Backup.VanishedSourceStopsAtOpen | main.go:128-135 | because mkdir runs before open, a source that has vanished fails at open after every directory on the way to the destination has been made, and no file changes |
| Backup.VanishedSourceLeavesSnapshotDir | program.go:131-144 | backing up a vanished file below a watched directory fails at open and still leaves the snapshot directory (base, then stamp) behind |
| Backup.WatchedDirSourceMakesOnlyBase | program.go:136-137 | when the changed path is a watched directory itself, the directory mkdir makes is the backup base, not the snapshot directory |
| Backup.StepsKeepValid | main.go:128-146 | every outcome of the steps leaves the disk a well-formed tree |
| Backup.BackupKeepsValid | program.go:117-168 | every outcome of backup leaves the disk a well-formed tree |
| Paths.RelJoinRoundTrip | program.go:131-136 | Join(base, Rel(base, target)) is the cleaned target |
| Paths.AcceptedRelDescends | program.go:122 | a relative path that does not start with ".." is "." or a sequence of plain names that leads from the base down to the target |
| Paths.RelToChild | program.go:122 | Rel from a directory to a child is the child's name |
| Paths.BaseIsOneElement | program.go:107 | Base gives "/" or a single non-empty element without a separator |
| Paths.BaseOfChild | main.go:98 | Base of a child path is the child's name |
| Paths.CleanIdempotent | program.go:122 | cleaning a clean path changes nothing |
| Paths.JoinSnapshotNames | main.go:127 | the elements of Join(base, stamp, rel) are the base's, then the stamp, then rel's |
| Paths.SnapshotsDiffer | program.go:136 | different snapshot names give different joined destinations for the same relative path |
| Paths.Join | program.go:136 | Join is empty exactly when every element is empty |
| Paths.DirOfRender | program.go:137 | Dir of a clean path drops its last element and keeps whether it is rooted |
| Paths.DirOfClean | main.go:128 | Dir of a cleaned path has the path's elements without the last one, with the same root |
| Paths.DirOfSnapshotDest | program.go:136-137 | the directory of a destination Join(base, stamp, rel) has every element of the destination but the last |
| Timestamp.FormatShape | program.go:118 | for years 0 to 9999 the stamp is exactly 19 characters, YYYY-MM-DD_HH-MM-SS, each field zero-padded |
| Timestamp.ParseFormat | program.go:118 | reading a stamp back gives the time it was made from |
| Timestamp.FormatParse | main.go:109 | every string the parser accepts is the stamp of the time it reads |
| Timestamp.FormatInjective | program.go:118 | distinct valid times give distinct stamps |
| Timestamp.FormatIsName | main.go:109 | a stamp is a single path element, neither "", "." nor "..", and has no '/' |
| Timestamp.AppendIntInjective | program.go:118 | a field written at a fixed width determines the number it was written from |
| FileSystem.FileSystem.MkdirAll | program.go:137-139 | fails on an injected fault or when something on the way is a file; otherwise creates every missing directory on the way |
| FileSystem.FileSystem.Open | program.go:141-144 | succeeds on an existing file or directory, and changes nothing |
| FileSystem.FileSystem.Create | program.go:152-155 | creates or truncates a regular file; fails on a directory, a missing parent or the empty path |
| FileSystem.FileSystem.Copy | program.go:163-165 | the destination receives the source's contents; reading a directory fails |
| FileSystem.MkdirAllKeepsValid | main.go:128 | a successful mkdir keeps the tree well formed and makes every directory on the way exist |
| FileSystem.MkdirAllFailsOnlyOnFile | main.go:128-130 | mkdir fails exactly on a fault or a file on the way |
| FileSystem.CreateKeepsValid | main.go:138 | a successful create keeps the tree well formed and leaves the file empty |
| FileSystem.CopyKeepsValid | main.go:144 | a successful copy keeps the tree well formed, gives the destination the source's bytes, and adds no file |
| EventLoop.Run | program.go:67-103 | the loop's log, the number of inputs read, whether it returned, and the final disk are the left fold of one turn per input, stopping at the first closing input |
| EventLoop.OtherOpsAreSkipped | program.go:73 | an event with only the Remove, Rename or Chmod bits is skipped: nothing is logged and the disk does not change |
| EventLoop.Dispatch | program.go:69-92 | one select case: ops without Create or Write are skipped, ignored names are logged and not backed up, other names are backed up with the outcome logged, and errors are logged |
| EventLoop.RunStopsOnlyOnClose | program.go:67-103 | the loop returns exactly at the first closed channel or `done`; failed backups and watcher errors never end it, and every earlier input is read |
| EventLoop.StoppedStays | main.go:54-57 | once the loop has returned, later inputs change nothing |
| EventLoop.RunAttempts | main.go:52-79 | when each turn attempts backups for exactly the wanted names, the loop attempts exactly the wanted names of the inputs it read, in order |
| EventLoop.RunAttemptsWanted | program.go:73-85 | backups are attempted exactly for Create or Write events whose name is not ignored, in arrival order, up to the input that ends the loop |
| EventLoop.HandleAttemptsWanted | main.go:58-70 | one turn attempts a backup exactly for a relevant, not-ignored event |
| EventLoop.HandleDecidesRight | main.go:59-65 | one turn logs "Ignored" only for a name the patterns match, and backs up only a name they do not match |
| EventLoop.LoggedDecisionsAreRight | program.go:73-80 | every "Ignored" entry in the log is for a matched name, and every backup is for an unmatched name |
| EventLoop.HandleKeepsValid | main.go:64-70 | one turn keeps the disk a well-formed tree |
| EventLoop.RunKeepsValid | program.go:67-103 | whatever inputs arrive, the disk stays a well-formed tree |
| Startup.Watcher.Add | program.go:56 | Add succeeds exactly on a directory the system does not refuse, and only then adds it to the watch list |
| Startup.WatchService | program.go:55-60 | every directory is tried; the log is the per-directory notes in order; the watch list gains exactly the directories that were not refused |
| Startup.ServiceLogsEveryDir | program.go:55-60 | "Watching" is logged for every configured directory, in order, including the refused ones |
| Startup.ServiceReportsRefused | program.go:56-58 | a failure is logged exactly for the configured directories that were refused |
| Startup.FirstRefused | main.go:42-48 | the position found is the first refused directory: every earlier one is accepted |
| Startup.WatchForeground | main.go:42-48 | the loop succeeds exactly when no directory is refused, and watches exactly the directories before the first refused one |
| Startup.RunForeground | main.go:28-48 | run's result is the foreground exit function; a config or watcher failure leaves the watch list alone, and otherwise the watch list gains exactly the directories before the first refused one |
| Startup.ForegroundExitsOnFailure | main.go:28-83 | run returns 1 exactly when the config cannot be loaded, the watcher cannot be made, or some directory is refused; it never returns 0 |

## Left out

- fsnotify, goroutines and `select`: the watcher's channels become an input sequence. The choice between ready channels is the input order.
- `Stop` blocking when it sends to `done` (program.go:38) is not modelled. Neither is `main.go` waiting on a `done` that nothing sends to (main.go:82): that state is the `Blocked` exit.
- `NewWatcher` failing in program.go:44-47 leaves a nil watcher that later calls dereference. The model does not go past that point: the service start is given a working watcher.
- kardianos/service (`Start`, `Stop`, `sLogger`) and the text of log lines. Logs are modelled as lists of actions and notes.
- `loadConfig` and YAML decoding: the loaded configuration is a parameter, `None` when loading fails.
- `time.Now` and the local time zone: the calendar fields are a parameter.
- Deferred `Close` calls and their errors: they do not change the result.
- Permissions (`os.ModePerm`) and symbolic links. Paths name the location they clean to.
- The working directory. FileSystem.LocOf never resolves a relative path against it: a relative path is a location of its own, apart from every rooted one. So a relative backup base never aliases a rooted watched directory, and a leading ".." of a relative path is kept as a name under the working directory rather than leaving it.
- Strings are sequences of characters. Go works on UTF-8 bytes and decodes runes inside `filepath.Match`; that decoding is not modelled.
- FileSystem.FileSystem.MkdirAll: a fault makes it change nothing. The real call may have created some directories before failing.
- FileSystem.FileSystem.Copy: a fault leaves the truncated destination. Partial writes are not modelled.
- GlobTheory.MatchAgrees: proved only for names without '/'. Go's greedy star can miss a match that the reference meaning finds when the name holds a '/' that a class or literal matches. shouldIgnore passes only the last element of a path. That element has no '/' unless the path is made only of separators, and then it is "/" itself, where GlobTheory.MatchAgreesOnRoot proves the agreement.
- Backup.VanishedSourceLeavesSnapshotDir: requires that the vanished source is not itself one of the directories mkdir creates, and that no file stands on the way. If either held, open would find the source or mkdir would fail.
- Backup.VanishedSourceLeavesSnapshotDir: does not cover a changed path that is a watched directory itself. Its relative path is ".", mkdir makes only the backup base, and no snapshot directory appears (Backup.WatchedDirSourceMakesOnlyBase).
- Startup.Watcher.Add: which directories the system refuses is a fixed set given when the watcher is made. It does not depend on timing.
