/** The part of the operating system the backup touches: a tree of
    directories and regular files with byte contents, reached through the
    four calls the backup makes (os.MkdirAll, os.Open, os.Create and io.Copy
    from the opened source into the created destination). A path names the
    location it cleans to; symbolic links, permissions and the directories
    outside the model are not represented. Each call takes a `fault` flag that
    stands for a failure the model does not otherwise explain (permission
    denied, disk full, an I/O error): when it is set the call fails. */
module FileSystem {
  import opened Paths

  type Bytes = seq<bv8>

  /** What a path denotes once cleaned: rooted or relative to the working
      directory, and its elements. */
  datatype Loc = Loc(rooted: bool, names: seq<string>)

  function LocOf(p: Path): Loc
  {
    Loc(IsRooted(p), Names(p))
  }

  function Parent(l: Loc): Loc
    requires |l.names| > 0
  {
    Loc(l.rooted, l.names[..|l.names| - 1])
  }

  /** The state of the disk: its directories and its files' contents. */
  datatype Disk = Disk(dirs: set<Loc>, files: map<Loc, Bytes>)

  /** A well-formed tree: "/" and the working directory are directories,
      nothing is both a directory and a file, and everything else sits in a
      directory. */
  predicate Valid(d: Disk)
  {
    && Loc(false, []) in d.dirs
    && Loc(true, []) in d.dirs
    && (forall l :: l in d.dirs ==> l !in d.files)
    && (forall l :: l in d.dirs && |l.names| > 0 ==> Parent(l) in d.dirs)
    && (forall l :: l in d.files && |l.names| > 0 ==> Parent(l) in d.dirs)
  }

  /** The location of `p` and every location above it, up to (not
      including) the root or the working directory. */
  function Chain(l: Loc): set<Loc>
  {
    set i | 1 <= i <= |l.names| :: Loc(l.rooted, l.names[..i])
  }

  /** os.MkdirAll: fails when something on the way is a regular file
      (ENOTDIR); otherwise every missing directory is created. */
  function MkdirAllSpec(d: Disk, p: Path, fault: bool): Option<Disk>
  {
    var l := LocOf(p);
    if fault || exists i :: 1 <= i <= |l.names| && Loc(l.rooted, l.names[..i]) in d.files then None
    else Some(Disk(d.dirs + Chain(l), d.files))
  }

  /** os.Open: succeeds on anything that exists, a directory included;
      the empty path does not exist. */
  predicate OpenSpec(d: Disk, p: Path, fault: bool)
  {
    !fault && p != "" && (LocOf(p) in d.dirs || LocOf(p) in d.files)
  }

  /** os.Create: creates or truncates a regular file; fails on a directory
      (EISDIR), when the parent directory is missing (ENOENT), and on the
      empty path. */
  function CreateSpec(d: Disk, p: Path, fault: bool): Option<Disk>
  {
    var l := LocOf(p);
    if fault || p == "" || l in d.dirs || |l.names| == 0 || Parent(l) !in d.dirs then None
    else Some(Disk(d.dirs, d.files[l := []]))
  }

  /** io.Copy from the opened source into the created destination: reading
      a directory fails (EISDIR); otherwise the destination receives the
      source's current contents. */
  function CopySpec(d: Disk, dst: Loc, src: Loc, fault: bool): Option<Disk>
  {
    if fault || src !in d.files then None
    else Some(Disk(d.dirs, d.files[dst := d.files[src]]))
  }

  // ---------------------------------------------------------------- the disk as an object

  class FileSystem {
    var dirs: set<Loc>
    var files: map<Loc, Bytes>

    function Snapshot(): Disk
      reads this
    {
      Disk(dirs, files)
    }

    constructor (d: Disk)
      ensures Snapshot() == d
    {
      dirs := d.dirs;
      files := d.files;
    }

    method MkdirAll(p: Path, fault: bool) returns (ok: bool)
      modifies this
      ensures ok == MkdirAllSpec(old(Snapshot()), p, fault).Some?
      ensures Snapshot() == if ok then MkdirAllSpec(old(Snapshot()), p, fault).value else old(Snapshot())
    {
      var l := LocOf(p);
      if fault {
        return false;
      }
      var i := 1;
      while i <= |l.names|
        invariant 1 <= i <= |l.names| + 1
        invariant forall j :: 1 <= j < i ==> Loc(l.rooted, l.names[..j]) !in files
      {
        if Loc(l.rooted, l.names[..i]) in files {
          return false;
        }
        i := i + 1;
      }
      dirs := dirs + Chain(l);
      return true;
    }

    method Open(p: Path, fault: bool) returns (ok: bool)
      ensures ok == OpenSpec(Snapshot(), p, fault)
    {
      ok := !fault && p != "" && (LocOf(p) in dirs || LocOf(p) in files);
    }

    method Create(p: Path, fault: bool) returns (ok: bool)
      modifies this
      ensures ok == CreateSpec(old(Snapshot()), p, fault).Some?
      ensures Snapshot() == if ok then CreateSpec(old(Snapshot()), p, fault).value else old(Snapshot())
    {
      var l := LocOf(p);
      if fault || p == "" || l in dirs || |l.names| == 0 || Parent(l) !in dirs {
        return false;
      }
      files := files[l := []];
      return true;
    }

    method Copy(dst: Loc, src: Loc, fault: bool) returns (ok: bool)
      modifies this
      ensures ok == CopySpec(old(Snapshot()), dst, src, fault).Some?
      ensures Snapshot() == if ok then CopySpec(old(Snapshot()), dst, src, fault).value else old(Snapshot())
    {
      if fault || src !in files {
        return false;
      }
      files := files[dst := files[src]];
      return true;
    }
  }

  // ---------------------------------------------------------------- properties

  /** MkdirAll keeps the tree well formed, and afterwards the location and
      everything above it are directories. */
  lemma MkdirAllKeepsValid(d: Disk, p: Path, fault: bool)
    requires Valid(d) && MkdirAllSpec(d, p, fault).Some?
    ensures Valid(MkdirAllSpec(d, p, fault).value)
    ensures Chain(LocOf(p)) <= MkdirAllSpec(d, p, fault).value.dirs
    ensures |LocOf(p).names| > 0 ==> LocOf(p) in MkdirAllSpec(d, p, fault).value.dirs
  {
    var l := LocOf(p);
    var d' := MkdirAllSpec(d, p, fault).value;
    forall a | a in d'.dirs
      ensures a !in d'.files
    {
      if a in Chain(l) {
        var i :| 1 <= i <= |l.names| && a == Loc(l.rooted, l.names[..i]);
      }
    }
    forall a | a in d'.dirs && |a.names| > 0
      ensures Parent(a) in d'.dirs
    {
      if a in Chain(l) {
        var i :| 1 <= i <= |l.names| && a == Loc(l.rooted, l.names[..i]);
        if i > 1 {
          assert Parent(a) == Loc(l.rooted, l.names[..i - 1]);
        } else {
          assert Parent(a) == Loc(l.rooted, []);
          assert Parent(a) in d.dirs by {
            if !l.rooted {
              assert Parent(a) == Loc(false, []);
            }
          }
        }
      }
    }
    if |l.names| > 0 {
      assert l.names[..|l.names|] == l.names;
    }
  }

  /** MkdirAll on a path whose directories can all be made (no regular file
      in the way) succeeds unless the fault is injected. */
  lemma MkdirAllFailsOnlyOnFile(d: Disk, p: Path, fault: bool)
    ensures MkdirAllSpec(d, p, fault).None? <==>
      (fault || exists a :: a in Chain(LocOf(p)) && a in d.files)
  {
    var l := LocOf(p);
    if exists a :: a in Chain(l) && a in d.files {
      var a :| a in Chain(l) && a in d.files;
      var i :| 1 <= i <= |l.names| && a == Loc(l.rooted, l.names[..i]);
    }
  }

  /** Create keeps the tree well formed and leaves an empty file. */
  lemma CreateKeepsValid(d: Disk, p: Path, fault: bool)
    requires Valid(d) && CreateSpec(d, p, fault).Some?
    ensures Valid(CreateSpec(d, p, fault).value)
    ensures CreateSpec(d, p, fault).value.files[LocOf(p)] == []
  {
  }

  /** Copy keeps the tree well formed and gives the destination the
      source's contents, changing no other file. */
  lemma CopyKeepsValid(d: Disk, dst: Loc, src: Loc, fault: bool)
    requires Valid(d) && dst in d.files && CopySpec(d, dst, src, fault).Some?
    ensures Valid(CopySpec(d, dst, src, fault).value)
    ensures CopySpec(d, dst, src, fault).value.files[dst] == d.files[src]
    ensures CopySpec(d, dst, src, fault).value.files.Keys == d.files.Keys
  {
  }
}
