/**
 * The per-task logic of the dotfile linker (`Task` in linker.py): choosing the
 * mode, deciding which root the target belongs to, swapping roots to get an
 * origin and a destination, classifying their state and making the hard link.
 */
module Linker {
  import opened Wrappers
  import opened Paths
  import opened FileSystem

  // ---------------------------------------------------------------- mode

  datatype Mode = Restore | Add | Compare

  /** The three optional file arguments (`--restore_filename`, `--add_filename`, `--compare_filename`). */
  datatype ModeArgs = ModeArgs(restore: Option<string>, add: Option<string>, compare: Option<string>)

  /** Errors that end a task before any file is processed. */
  datatype TaskError =
    | ConflictingModes   // ValueError: more than one mode requested
    | NoMode             // no mode requested: the task has no file to work on
    | RepoNotFound       // the repository directory does not exist
    | HomeNotFound       // the home directory does not exist
    | NotRelative        // the target is inside neither root

  /** Python truthiness of an optional string argument: absent and empty are both false. */
  predicate Given(arg: Option<string>) {
    arg.Some? && arg.value != ""
  }

  function ArgOf(args: ModeArgs, m: Mode): Option<string> {
    match m
    case Restore => args.restore
    case Add => args.add
    case Compare => args.compare
  }

  function GivenCount(args: ModeArgs): nat {
    (if Given(args.restore) then 1 else 0)
    + (if Given(args.add) then 1 else 0)
    + (if Given(args.compare) then 1 else 0)
  }

  /**
   * `Task.__init__`: the modes are scanned in the order restore, add, compare,
   * the last one given wins, and more than one given is an error.
   */
  function SelectMode(args: ModeArgs): (r: Result<(Mode, string), TaskError>)
    ensures r == Err(ConflictingModes) <==> GivenCount(args) > 1
    ensures r == Err(NoMode) <==> GivenCount(args) == 0
    ensures r.Err? ==> r.error in {ConflictingModes, NoMode}
    ensures r.Ok? ==> Given(ArgOf(args, r.value.0)) && ArgOf(args, r.value.0).value == r.value.1
    ensures r.Ok? ==> forall m :: m != r.value.0 ==> !Given(ArgOf(args, m))
  {
    if GivenCount(args) > 1 then Err(ConflictingModes)
    else if Given(args.compare) then Ok((Compare, args.compare.value))
    else if Given(args.add) then Ok((Add, args.add.value))
    else if Given(args.restore) then Ok((Restore, args.restore.value))
    else Err(NoMode)
  }

  /** Counting the given arguments agrees with asking which modes are given. */
  lemma GivenCountMeaning(args: ModeArgs)
    ensures GivenCount(args) > 1 <==> exists m, m' :: m != m' && Given(ArgOf(args, m)) && Given(ArgOf(args, m'))
    ensures GivenCount(args) == 1 <==> exists m :: Given(ArgOf(args, m)) && forall m' :: m' != m ==> !Given(ArgOf(args, m'))
  {
    var r, a, c := Given(args.restore), Given(args.add), Given(args.compare);
    assert ArgOf(args, Restore) == args.restore && ArgOf(args, Add) == args.add && ArgOf(args, Compare) == args.compare;
    if r && a {
      assert Restore != Add;
    } else if r && c {
      assert Restore != Compare;
    } else if a && c {
      assert Add != Compare;
    }
    if GivenCount(args) == 1 {
      if r {
        assert forall m' :: m' != Restore ==> !Given(ArgOf(args, m'));
      } else if a {
        assert forall m' :: m' != Add ==> !Given(ArgOf(args, m'));
      } else {
        assert forall m' :: m' != Compare ==> !Given(ArgOf(args, m'));
      }
    }
  }

  // ---------------------------------------------------------------- roots

  /**
   * `Task.file_path`: the root the target's relative path is taken against.
   * The target equal to a root is its own base; otherwise the repository wins
   * over home when both contain the target.
   */
  function RelativeRoot(repo: Path, home: Path, target: Path): (r: Result<Path, TaskError>)
    ensures r.Ok? <==> IsPrefix(repo, target) || IsPrefix(home, target)
    ensures r.Ok? ==> IsPrefix(r.value, target) && (r.value == repo || r.value == home)
    ensures r.Err? ==> r.error == NotRelative
    ensures target == home ==> r == Ok(home)
    ensures IsPrefix(repo, target) && target != home ==> r == Ok(repo)
    ensures IsPrefix(home, target) && !IsPrefix(repo, target) ==> r == Ok(home)
  {
    if target == repo || target == home then Ok(target)
    else if IsAncestor(repo, target) then Ok(repo)
    else if IsAncestor(home, target) then Ok(home)
    else Err(NotRelative)
  }

  /**
   * Resolving the target: the repository root is checked to exist, then the
   * home root, then the membership rule is applied.
   */
  function Resolve(fs: FS, repo: Path, home: Path, target: Path): (r: Result<Path, TaskError>)
    ensures r == Err(RepoNotFound) <==> repo !in fs
    ensures r == Err(HomeNotFound) <==> repo in fs && home !in fs
    ensures r.Ok? <==> repo in fs && home in fs && (IsPrefix(repo, target) || IsPrefix(home, target))
    ensures r.Ok? ==> IsPrefix(r.value, target) && (r.value == repo || r.value == home)
    ensures repo in fs && home in fs ==> r == RelativeRoot(repo, home, target)
  {
    if repo !in fs then Err(RepoNotFound)
    else if home !in fs then Err(HomeNotFound)
    else RelativeRoot(repo, home, target)
  }

  /** The root files are taken from: the repository when restoring, home otherwise. */
  function OriginRoot(mode: Mode, repo: Path, home: Path): Path {
    if mode == Restore then repo else home
  }

  /** The root links are made in: the other root. */
  function DestRoot(mode: Mode, repo: Path, home: Path): Path {
    if mode == Restore then home else repo
  }

  /** `Task.get_orig_dest`: the relative path re-joined under both roots, ordered by mode. */
  function OrigDest(mode: Mode, repo: Path, home: Path, rel: Path): (r: (Path, Path))
    ensures IsPrefix(OriginRoot(mode, repo, home), r.0) && IsPrefix(DestRoot(mode, repo, home), r.1)
    ensures IsSuffix(rel, r.0) && IsSuffix(rel, r.1)
    ensures RelativeTo(r.0, OriginRoot(mode, repo, home)) == rel
    ensures RelativeTo(r.1, DestRoot(mode, repo, home)) == rel
  {
    var homeLink := Join(home, rel);
    var repoLink := Join(repo, rel);
    if mode == Restore then (repoLink, homeLink) else (homeLink, repoLink)
  }

  /** Restore reverses the direction of add, and compare looks in the direction of add. */
  lemma OrigDestDirections(repo: Path, home: Path, rel: Path)
    ensures OrigDest(Restore, repo, home, rel) == (OrigDest(Add, repo, home, rel).1, OrigDest(Add, repo, home, rel).0)
    ensures OrigDest(Compare, repo, home, rel) == OrigDest(Add, repo, home, rel)
    ensures OrigDest(Restore, repo, home, rel).0 == Join(repo, rel)
    ensures OrigDest(Restore, repo, home, rel).1 == Join(home, rel)
  {
  }

  /**
   * When neither root lies inside the other, re-joining a path taken relative
   * to one root under the other root leaves the first root.
   */
  lemma RootSwapLeavesRoot(repo: Path, home: Path, target: Path)
    requires !IsPrefix(repo, home) && !IsPrefix(home, repo)
    requires IsPrefix(repo, target)
    ensures !IsPrefix(repo, Join(home, RelativeTo(target, repo)))
  {
    var swapped := Join(home, RelativeTo(target, repo));
    JoinRelativeRoundTrip(home, RelativeTo(target, repo));
    if IsPrefix(repo, swapped) {
      PrefixesNested(repo, home, swapped);
    }
  }

  /**
   * With the repository inside home (the default layout), a file under the
   * repository can swap to a path that is still inside the repository.
   */
  lemma RootSwapNestedRoots()
    ensures var repo := ["home", "u", "dots"];
            var home := ["home", "u"];
            var target := ["home", "u", "dots", "dots", "x"];
            IsPrefix(repo, target) && IsPrefix(repo, Join(home, RelativeTo(target, repo)))
  {
  }

  // ---------------------------------------------------------------- state

  /** The status messages the linker reports for one file. */
  datatype Status =
    | NotFound          // "NOT FOUND": origin missing
    | MissingFile       // "MISSING FILE": destination missing
    | Hardlinked        // "HARDLINKED": origin and destination are one file
    | DifferentFiles    // "DIFFERENT FILES": both exist as different files, or an existing destination was kept
    | Overwrited        // "OVERWRITED": destination replaced by a link to the origin
    | Linked            // "LINKED": destination created as a link to the origin
    | FileSystemError   // "FILE SYSTEM ERROR": destination absent after linking

  /** `Task._check_file`: classifies an origin/destination pair without changing anything. */
  function CheckFile(fs: FS, orig: Path, dest: Path): (r: Status)
    ensures r in {NotFound, MissingFile, Hardlinked, DifferentFiles}
    ensures r == NotFound <==> orig !in fs
    ensures r == MissingFile <==> orig in fs && dest !in fs
    ensures r == Hardlinked <==> orig in fs && dest in fs && SameFile(fs, orig, dest)
    ensures r == DifferentFiles <==> orig in fs && dest in fs && !SameFile(fs, orig, dest)
  {
    if orig !in fs then NotFound
    else if dest !in fs then MissingFile
    else if SameFile(fs, orig, dest) then Hardlinked
    else DifferentFiles
  }

  // ---------------------------------------------------------------- linking

  /** What linking one file did: a status and the new filesystem, or an exception and the filesystem as it was left. */
  datatype LinkOutcome = Done(fs: FS, status: Status) | Raised(fs: FS, error: OsError)

  /** The post-check: a destination that does not exist after linking is a filesystem error. */
  function PostCheck(fs: FS, dest: Path, status: Status): LinkOutcome {
    Done(fs, if dest in fs then status else FileSystemError)
  }

  /**
   * `Task._link_file` exactly as written: an existing destination is kept
   * (no overwrite) or unlinked and relinked (overwrite); a missing one gets its
   * directories made (only for a relative path of several components) and is
   * linked. The destination is unlinked before the origin is looked at.
   */
  function LinkFileAsWritten(fs: FS, orig: Path, dest: Path, rel: Path, overwrite: bool, landed: bool): (r: LinkOutcome)
    requires IsSuffix(rel, dest)
    ensures dest in fs && !overwrite ==> r == Done(fs, DifferentFiles)
    ensures r.Done? ==> r.status in {DifferentFiles, Linked, Overwrited, FileSystemError}
    ensures r.Done? && r.status != DifferentFiles ==> (r.status == FileSystemError <==> !landed)
    ensures forall p :: p in fs && p != dest ==> p in r.fs && r.fs[p] == fs[p]
    ensures forall p :: p in r.fs && p !in fs && p != dest ==> 1 < |rel| && IsAncestor(p, dest) && r.fs[p].Dir?
  {
    if dest in fs then
      if overwrite then
        match Unlink(fs, dest)
        case Err(e) => Raised(fs, e)
        case Ok(fs1) =>
          match Link(fs1, orig, dest, landed)
          case Err(e) => Raised(fs1, e)
          case Ok(fs2) => PostCheck(fs2, dest, Overwrited)
      else
        Done(fs, DifferentFiles)
    else
      var made := if |rel| > 1 then MakeDirs(fs, Parent(dest)) else Ok(fs);
      match made
      case Err(e) => Raised(fs, e)
      case Ok(fs1) =>
        match Link(fs1, orig, dest, landed)
        case Err(e) => Raised(fs1, e)
        case Ok(fs2) => PostCheck(fs2, dest, Linked)
  }

  /**
   * As written, overwriting with a missing origin deletes the destination and
   * then raises, so the destination's content is lost.
   */
  lemma OverwriteWithMissingOriginLosesDestination(fs: FS, orig: Path, dest: Path, rel: Path, landed: bool)
    requires IsSuffix(rel, dest)
    requires orig !in fs && dest in fs && fs[dest].File?
    ensures LinkFileAsWritten(fs, orig, dest, rel, true, landed).Raised?
    ensures LinkFileAsWritten(fs, orig, dest, rel, true, landed).fs == fs - {dest}
    ensures dest !in LinkFileAsWritten(fs, orig, dest, rel, true, landed).fs
    ensures LinkFileAsWritten(fs, orig, dest, rel, true, landed).error in {FileNotFound, NotADirectory}
    ensures WellFormed(fs) ==>
              (LinkFileAsWritten(fs, orig, dest, rel, true, landed).error == NotADirectory <==> !NoFileOnPath(fs - {dest}, orig))
  {
    if WellFormed(fs) {
      assert WellFormed(fs - {dest});
      WalkMeaning(fs - {dest}, orig);
    }
  }

  /** A concrete instance: restoring `~/.bashrc` with overwrite when the repository has no `.bashrc`. */
  lemma OverwriteWithMissingOriginExample()
    ensures var fs := map[[] := Dir, ["repo"] := Dir, ["home"] := Dir, ["home", ".bashrc"] := File(7)];
            var r := LinkFileAsWritten(fs, ["repo", ".bashrc"], ["home", ".bashrc"], [".bashrc"], true, true);
            r.Raised? && ["home", ".bashrc"] !in r.fs
  {
  }

  /**
   * As written, linking a missing origin to a missing destination first makes
   * the destination's directories and then raises, so the batch ends with
   * those directories left behind.
   */
  lemma MissingOriginMakesDirsThenRaises(fs: FS, orig: Path, dest: Path, rel: Path, overwrite: bool, landed: bool)
    requires IsSuffix(rel, dest)
    requires orig !in fs && dest !in fs && |rel| > 1 && MakeDirs(fs, Parent(dest)).Ok?
    ensures LinkFileAsWritten(fs, orig, dest, rel, overwrite, landed).Raised?
    ensures LinkFileAsWritten(fs, orig, dest, rel, overwrite, landed).fs == MakeDirs(fs, Parent(dest)).value
    ensures !IsPrefix(orig, Parent(dest)) ==> LinkFileAsWritten(fs, orig, dest, rel, overwrite, landed).error in {FileNotFound, NotADirectory}
    ensures WellFormed(fs) && !IsPrefix(orig, Parent(dest)) ==>
              (LinkFileAsWritten(fs, orig, dest, rel, overwrite, landed).error == NotADirectory <==> !NoFileOnPath(fs, orig))
  {
    var fs1 := MakeDirs(fs, Parent(dest)).value;
    if WellFormed(fs) && !IsPrefix(orig, Parent(dest)) {
      MakeDirsPreservesWellFormed(fs, Parent(dest));
      WalkMeaning(fs1, orig);
      assert NoFileOnPath(fs1, orig) <==> NoFileOnPath(fs, orig);
    }
  }

  /**
   * Concrete instances: restoring `~/d/x` when the repository has no `d`
   * creates `~/d`, then raises FileNotFoundError; when the repository's `d`
   * is a regular file, it creates `~/d`, then raises NotADirectoryError.
   */
  lemma MissingOriginMakesDirsExample()
    ensures var fs := map[[] := Dir, ["repo"] := Dir, ["home"] := Dir];
            var r := LinkFileAsWritten(fs, ["repo", "d", "x"], ["home", "d", "x"], ["d", "x"], false, true);
            r == Raised(fs[["home", "d"] := Dir], FileNotFound)
    ensures var fs := map[[] := Dir, ["repo"] := Dir, ["repo", "d"] := File(1), ["home"] := Dir];
            var r := LinkFileAsWritten(fs, ["repo", "d", "x"], ["home", "d", "x"], ["d", "x"], false, true);
            r == Raised(fs[["home", "d"] := Dir], NotADirectory)
  {
    assert Parent(["home", "d", "x"]) == ["home", "d"];
    assert Parent(["home", "d"]) == ["home"];
    assert Parent(["repo", "d", "x"]) == ["repo", "d"];
    assert Parent(["repo", "d"]) == ["repo"];
    assert Parent(["repo"]) == [];
  }

  /** As written, a missing origin raises exactly when the destination is missing or is to be overwritten. */
  lemma AsWrittenRaisesOnMissingOrigin(fs: FS, orig: Path, dest: Path, rel: Path, overwrite: bool, landed: bool)
    requires IsSuffix(rel, dest) && orig !in fs
    ensures LinkFileAsWritten(fs, orig, dest, rel, overwrite, landed).Raised? <==> dest !in fs || overwrite
    ensures dest in fs && !overwrite ==> LinkFileAsWritten(fs, orig, dest, rel, overwrite, landed) == Done(fs, DifferentFiles)
  {
  }

  /**
   * `Task._link_file` with the origin checked before anything is changed:
   * where the code as written would raise on a missing origin, the file is
   * reported as NOT FOUND and nothing is touched; everywhere else (including
   * a kept destination with a missing origin, reported as DIFFERENT FILES)
   * it behaves as written.
   */
  function LinkFile(fs: FS, orig: Path, dest: Path, rel: Path, overwrite: bool, landed: bool): (r: LinkOutcome)
    requires IsSuffix(rel, dest)
    ensures orig !in fs && (dest !in fs || overwrite) ==> r == Done(fs, NotFound)
    ensures dest in fs && !overwrite ==> r == Done(fs, DifferentFiles)
    ensures r.Done? ==> r.status in {NotFound, DifferentFiles, Linked, Overwrited, FileSystemError}
    // the destination after a link shares the origin's identity
    ensures r.Done? && r.status in {Linked, Overwrited} ==> dest in r.fs && r.fs[dest] == fs[orig] && fs[orig].File? && orig != dest
    ensures r.Done? && r.status == Linked ==> dest !in fs && landed
    ensures r.Done? && r.status == Overwrited ==> dest in fs && overwrite && landed
    ensures r.Done? && r.status == FileSystemError ==> dest !in r.fs && !landed
    ensures r.Done? && r.status !in {NotFound, DifferentFiles} ==> (r.status == FileSystemError <==> !landed)
    // nothing but the destination and its new parent directories changes
    ensures forall p :: p in fs && p != dest ==> p in r.fs && r.fs[p] == fs[p]
    ensures forall p :: p in r.fs && p !in fs && p != dest ==> 1 < |rel| && IsAncestor(p, dest) && r.fs[p].Dir?
    // an exception leaves the filesystem as it was, except for an unlinked destination
    ensures r.Raised? ==> dest in r.fs ==> dest in fs && r.fs[dest] == fs[dest]
  {
    if orig !in fs && (dest !in fs || overwrite) then Done(fs, NotFound)
    else LinkFileAsWritten(fs, orig, dest, rel, overwrite, landed)
  }

  /** The correction changes only outcomes where the code as written raises. */
  lemma LinkFileAgreesUnlessAsWrittenRaises(fs: FS, orig: Path, dest: Path, rel: Path, overwrite: bool, landed: bool)
    requires IsSuffix(rel, dest) && !LinkFileAsWritten(fs, orig, dest, rel, overwrite, landed).Raised?
    ensures LinkFile(fs, orig, dest, rel, overwrite, landed) == LinkFileAsWritten(fs, orig, dest, rel, overwrite, landed)
  {
  }

  /** Linking keeps a filesystem well formed. */
  lemma {:induction false} LinkFilePreservesWellFormed(fs: FS, orig: Path, dest: Path, rel: Path, overwrite: bool, landed: bool)
    requires WellFormed(fs) && IsSuffix(rel, dest)
    ensures WellFormed(LinkFile(fs, orig, dest, rel, overwrite, landed).fs)
  {
    if orig in fs {
      if dest in fs {
        if overwrite && fs[dest].File? {
          var fs1 := fs - {dest};
          assert WellFormed(fs1) by {
            forall p | p in fs1 && |p| > 0
              ensures Parent(p) in fs1 && fs1[Parent(p)].Dir?
            {
              assert Parent(p) != dest;
            }
          }
        }
      } else if |rel| > 1 {
        MakeDirsPreservesWellFormed(fs, Parent(dest));
      }
    }
  }

  /** Creating a missing destination links it when no file blocks its directories. */
  lemma {:induction false} LinkFileCreates(fs: FS, orig: Path, dest: Path, rel: Path, overwrite: bool)
    requires WellFormed(fs) && IsSuffix(rel, dest) && |dest| > 0
    requires orig in fs && fs[orig].File? && dest !in fs
    requires NoFileOnPath(fs, Parent(dest))
    requires |rel| > 1 || Parent(dest) in fs
    ensures LinkFile(fs, orig, dest, rel, overwrite, true).Done?
    ensures LinkFile(fs, orig, dest, rel, overwrite, true).status == Linked
  {
    if |rel| > 1 {
      MakeDirsOkIff(fs, Parent(dest));
    } else {
      assert Parent(dest)[..|Parent(dest)|] == Parent(dest);
    }
  }

  /** Overwriting an existing file replaces exactly that entry with a link to the origin. */
  lemma LinkFileOverwrites(fs: FS, orig: Path, dest: Path, rel: Path)
    requires WellFormed(fs) && IsSuffix(rel, dest)
    requires orig in fs && fs[orig].File? && dest in fs && fs[dest].File? && orig != dest
    ensures LinkFile(fs, orig, dest, rel, true, true) == Done(fs[dest := fs[orig]], Overwrited)
  {
    var fs1 := fs - {dest};
    assert Unlink(fs, dest) == Ok(fs1);
    assert |dest| > 0 && IsDir(fs1, Parent(dest));
    assert Link(fs1, orig, dest, true) == Ok(fs1[dest := fs[orig]]);
    assert fs1[dest := fs[orig]] == fs[dest := fs[orig]];
  }

  /** An existing directory at the destination cannot be overwritten. */
  lemma LinkFileRefusesDirectory(fs: FS, orig: Path, dest: Path, rel: Path, landed: bool)
    requires IsSuffix(rel, dest) && orig in fs && dest in fs && fs[dest].Dir?
    ensures LinkFile(fs, orig, dest, rel, true, landed) == Raised(fs, IsADirectory)
  {
  }

  /**
   * A hard-linked pair is stable: inspecting it says HARDLINKED, linking it
   * without overwrite reports DIFFERENT FILES and changes nothing, and
   * linking it with overwrite reports OVERWRITED and changes nothing.
   */
  lemma HardlinkedPairStable(fs: FS, orig: Path, dest: Path, rel: Path)
    requires WellFormed(fs) && IsSuffix(rel, dest)
    requires orig in fs && dest in fs && orig != dest && fs[orig].File? && fs[dest] == fs[orig]
    ensures CheckFile(fs, orig, dest) == Hardlinked
    ensures LinkFile(fs, orig, dest, rel, false, true) == Done(fs, DifferentFiles)
    ensures LinkFile(fs, orig, dest, rel, true, true) == Done(fs, Overwrited)
  {
    LinkFileOverwrites(fs, orig, dest, rel);
    assert fs[dest := fs[orig]] == fs;
  }

  /** Linking then inspecting: after LINKED or OVERWRITED the pair is hard-linked and stable. */
  lemma LinkThenInspect(fs: FS, orig: Path, dest: Path, rel: Path, overwrite: bool, landed: bool)
    requires WellFormed(fs) && IsSuffix(rel, dest)
    requires LinkFile(fs, orig, dest, rel, overwrite, landed).Done?
    requires LinkFile(fs, orig, dest, rel, overwrite, landed).status in {Linked, Overwrited}
    ensures var fs' := LinkFile(fs, orig, dest, rel, overwrite, landed).fs;
            && CheckFile(fs', orig, dest) == Hardlinked
            && LinkFile(fs', orig, dest, rel, false, true) == Done(fs', DifferentFiles)
            && LinkFile(fs', orig, dest, rel, true, true) == Done(fs', Overwrited)
  {
    var fs' := LinkFile(fs, orig, dest, rel, overwrite, landed).fs;
    LinkFilePreservesWellFormed(fs, orig, dest, rel, overwrite, landed);
    HardlinkedPairStable(fs', orig, dest, rel);
  }

  /**
   * The inspection predicts the link: a missing origin is left alone, an
   * existing destination without overwrite is kept, and only a missing
   * destination can become LINKED.
   */
  lemma CheckPredictsLink(fs: FS, orig: Path, dest: Path, rel: Path, overwrite: bool, landed: bool)
    requires IsSuffix(rel, dest)
    ensures CheckFile(fs, orig, dest) == NotFound && (dest !in fs || overwrite) ==>
              LinkFile(fs, orig, dest, rel, overwrite, landed) == Done(fs, NotFound)
    ensures CheckFile(fs, orig, dest) == NotFound && dest in fs && !overwrite ==>
              LinkFile(fs, orig, dest, rel, overwrite, landed) == Done(fs, DifferentFiles)
    ensures CheckFile(fs, orig, dest) in {Hardlinked, DifferentFiles} && !overwrite ==>
              LinkFile(fs, orig, dest, rel, overwrite, landed) == Done(fs, DifferentFiles)
    ensures LinkFile(fs, orig, dest, rel, overwrite, landed).Done? ==>
              (LinkFile(fs, orig, dest, rel, overwrite, landed).status == Linked ==> CheckFile(fs, orig, dest) == MissingFile)
    ensures LinkFile(fs, orig, dest, rel, overwrite, landed).Done? ==>
              (LinkFile(fs, orig, dest, rel, overwrite, landed).status == Overwrited ==> CheckFile(fs, orig, dest) in {Hardlinked, DifferentFiles})
  {
  }
}
