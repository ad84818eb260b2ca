/**
 * An abstract filesystem: a finite map from canonical paths to entries. A
 * regular file carries its identity (inode); two paths holding the same
 * identity are hard links of one file. The operations below are the os and
 * pathlib calls the linker makes, each either producing a new map or raising
 * the exception Python raises for it on Linux.
 */
module FileSystem {
  import opened Wrappers
  import opened Paths

  datatype Node = Dir | File(ino: nat)

  type FS = map<Path, Node>

  /** The Python exception classes that the modelled calls raise. */
  datatype OsError = FileNotFound | FileExists | NotADirectory | IsADirectory | PermissionDenied

  /** The root `/` is a directory and every other entry sits in an existing directory. */
  ghost predicate WellFormed(fs: FS) {
    && [] in fs
    && fs[[]].Dir?
    && forall p :: p in fs && |p| > 0 ==> Parent(p) in fs && fs[Parent(p)].Dir?
  }

  predicate IsDir(fs: FS, p: Path) {
    p in fs && fs[p].Dir?
  }

  /** `os.path.samefile`: one path, or two regular files with one identity. */
  predicate SameFile(fs: FS, a: Path, b: Path)
    requires a in fs && b in fs
  {
    a == b || (fs[a].File? && fs[b].File? && fs[a].ino == fs[b].ino)
  }

  /** Every ancestor of `p` (and `p` itself) that exists is a directory. */
  ghost predicate NoFileOnPath(fs: FS, p: Path) {
    forall k :: 0 <= k <= |p| && p[..k] in fs ==> fs[p[..k]].Dir?
  }

  /**
   * `Path(d).mkdir(parents=True, exist_ok=True)`: `mkdir(d)`; when that fails
   * because the parent is missing, make the parent the same way and retry.
   * An existing directory is accepted, an existing file is not.
   */
  function MakeDirs(fs: FS, d: Path): (r: Result<FS, OsError>)
    decreases |d|
    ensures r.Ok? ==> IsDir(r.value, d)
    ensures r.Ok? ==> forall p :: p in fs ==> p in r.value && r.value[p] == fs[p]
    ensures r.Ok? ==> forall p :: p in r.value && p !in fs ==> IsPrefix(p, d) && r.value[p].Dir?
  {
    if d in fs then
      if fs[d].Dir? then Ok(fs) else Err(FileExists)
    else if |d| == 0 then
      Err(FileNotFound)
    else if Parent(d) in fs then
      if fs[Parent(d)].Dir? then Ok(fs[d := Dir]) else Err(NotADirectory)
    else
      match MakeDirs(fs, Parent(d))
      case Err(e) => Err(e)
      case Ok(fs1) => Ok(fs1[d := Dir])
  }

  /**
   * Path resolution as the kernel does it, from the root down: every ancestor
   * must exist and be a directory before the next component is looked up. A
   * missing component gives ENOENT (FileNotFoundError), a component that is
   * not a directory gives ENOTDIR (NotADirectoryError).
   */
  function Walk(fs: FS, p: Path): (r: Result<Node, OsError>)
    decreases |p|
    ensures r.Ok? ==> p in fs && r.value == fs[p]
    ensures r.Err? ==> r.error in {FileNotFound, NotADirectory}
  {
    if |p| == 0 then
      if [] in fs then Ok(fs[[]]) else Err(FileNotFound)
    else
      match Walk(fs, Parent(p))
      case Err(e) => Err(e)
      case Ok(n) =>
        if !n.Dir? then Err(NotADirectory)
        else if p in fs then Ok(fs[p])
        else Err(FileNotFound)
  }

  /**
   * `os.link(orig, dest)`, with the checks of Linux link(2) in its order: the
   * origin is resolved, then the destination's directory, then the
   * destination must be free, then the origin must not be a directory. A path
   * that does not resolve raises what `Walk` reports for it.
   * `landed` is false for a failure that raises nothing yet leaves no entry
   * behind (the cases the post-check of `linker.py` exists for).
   */
  function Link(fs: FS, orig: Path, dest: Path, landed: bool): (r: Result<FS, OsError>)
    ensures r.Ok? ==> orig in fs && fs[orig].File? && dest !in fs && |dest| > 0 && IsDir(fs, Parent(dest))
    ensures r.Ok? ==> r.value == if landed then fs[dest := fs[orig]] else fs
    ensures orig !in fs ==> r.Err? && r.error in {FileNotFound, NotADirectory}
  {
    if orig !in fs then Err(Walk(fs, orig).error)
    else if |dest| == 0 then Err(FileExists)
    else if Parent(dest) !in fs then Err(Walk(fs, Parent(dest)).error)
    else if !fs[Parent(dest)].Dir? then Err(NotADirectory)
    else if dest in fs then Err(FileExists)
    else if fs[orig].Dir? then Err(PermissionDenied)
    else Ok(if landed then fs[dest := fs[orig]] else fs)
  }

  /** `Path(p).unlink()`: removes one file entry; a directory is refused. */
  function Unlink(fs: FS, p: Path): (r: Result<FS, OsError>)
    ensures r.Ok? ==> p in fs && fs[p].File? && r.value == fs - {p}
  {
    if p !in fs then Err(FileNotFound)
    else if fs[p].Dir? then Err(IsADirectory)
    else Ok(fs - {p})
  }

  /** `mkdir -p` succeeds exactly when no existing component of the path is a file. */
  lemma {:induction false} MakeDirsOkIff(fs: FS, d: Path)
    requires WellFormed(fs)
    ensures MakeDirs(fs, d).Ok? <==> NoFileOnPath(fs, d)
    decreases |d|
  {
    if d in fs {
      assert d[..|d|] == d;
      if fs[d].Dir? {
        WellFormedAncestorsAreDirs(fs, d);
      }
    } else if |d| == 0 {
      assert false;
    } else if Parent(d) in fs {
      assert d[..|d| - 1] == Parent(d);
      if fs[Parent(d)].Dir? {
        WellFormedAncestorsAreDirs(fs, Parent(d));
        assert d[..|d|] == d;
        forall k | 0 <= k <= |d| && d[..k] in fs
          ensures fs[d[..k]].Dir?
        {
          if k < |d| {
            assert d[..k] == Parent(d)[..k];
          }
        }
      }
    } else {
      MakeDirsOkIff(fs, Parent(d));
      assert d[..|d|] == d;
      forall k | 0 <= k <= |d| && d[..k] in fs
        ensures NoFileOnPath(fs, Parent(d)) ==> fs[d[..k]].Dir?
      {
        if k < |d| {
          assert d[..k] == Parent(d)[..k];
        }
      }
      if !NoFileOnPath(fs, Parent(d)) {
        var k :| 0 <= k <= |Parent(d)| && Parent(d)[..k] in fs && !fs[Parent(d)[..k]].Dir?;
        assert Parent(d)[..k] == d[..k];
      }
    }
  }

  /** In a well-formed filesystem every ancestor of an existing directory exists and is a directory. */
  lemma {:induction false} WellFormedAncestorsAreDirs(fs: FS, d: Path)
    requires WellFormed(fs) && IsDir(fs, d)
    ensures NoFileOnPath(fs, d)
    ensures forall k :: 0 <= k <= |d| ==> IsDir(fs, d[..k])
    decreases |d|
  {
    if |d| > 0 {
      WellFormedAncestorsAreDirs(fs, Parent(d));
      forall k | 0 <= k <= |d|
        ensures IsDir(fs, d[..k])
      {
        if k < |d| {
          assert d[..k] == Parent(d)[..k];
        } else {
          assert d[..k] == d;
        }
      }
    } else {
      assert forall k :: 0 <= k <= |d| ==> d[..k] == d;
    }
  }

  lemma {:induction false} MakeDirsPreservesWellFormed(fs: FS, d: Path)
    requires WellFormed(fs)
    ensures MakeDirs(fs, d).Ok? ==> WellFormed(MakeDirs(fs, d).value)
    decreases |d|
  {
    if d !in fs && |d| > 0 && Parent(d) !in fs {
      MakeDirsPreservesWellFormed(fs, Parent(d));
    }
  }

  /**
   * In a well-formed filesystem the walk finds exactly the existing entries,
   * and a missing path fails with ENOTDIR exactly when some existing
   * ancestor of it is a file.
   */
  lemma {:induction false} WalkMeaning(fs: FS, p: Path)
    requires WellFormed(fs)
    ensures p in fs ==> Walk(fs, p) == Ok(fs[p])
    ensures p !in fs ==> Walk(fs, p).Err?
    ensures p !in fs ==> (Walk(fs, p) == Err(NotADirectory) <==> !NoFileOnPath(fs, p))
    decreases |p|
  {
    if |p| > 0 {
      var q := Parent(p);
      WalkMeaning(fs, q);
      forall k | 0 <= k < |p|
        ensures p[..k] == q[..k]
      {
      }
      if p !in fs {
        if q in fs && fs[q].Dir? {
          WellFormedAncestorsAreDirs(fs, q);
          assert p[..|p|] == p;
          forall k | 0 <= k < |p| && p[..k] in fs
            ensures fs[p[..k]].Dir?
          {
            assert IsDir(fs, q[..k]);
          }
        } else if q in fs {
          assert p[..|q|] == q;
        } else {
          assert p[..|p|] == p;
          assert NoFileOnPath(fs, p) <==> NoFileOnPath(fs, q);
        }
      }
    }
  }
}
