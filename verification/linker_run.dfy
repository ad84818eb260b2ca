/**
 * `Task.run`: the batch driver. The target is expanded into files, each file
 * is inspected and (outside compare and dry runs) linked, and the external
 * diff viewer is requested when exactly one compared file differs.
 */
module LinkerRun {
  import opened Wrappers
  import opened Paths
  import opened FileSystem
  import opened Linker

  /** The settled parameters of one task. */
  datatype Task = Task(mode: Mode, repo: Path, home: Path, dry: bool, overwrite: bool)

  /** One line of the report: a status and the origin and destination it is about. */
  datatype Report = Report(status: Status, orig: Path, dest: Path)

  /** Processing one file either yields a report (and whether it is a compare conflict) or raises. */
  datatype Step = Step(fs: FS, report: Report, conflict: bool) | Abort(fs: FS, error: OsError)

  /** The origin and destination planned for `file`, taken relative to `base`. */
  function Planned(task: Task, base: Path, file: Path): (Path, Path)
    requires IsPrefix(base, file)
  {
    OrigDest(task.mode, task.repo, task.home, RelativeTo(file, base))
  }

  /**
   * One iteration of the loop in `run`. The destinations in `failing` are
   * those where the link raises nothing yet does not land.
   */
  function ProcessFile(fs: FS, task: Task, base: Path, file: Path, failing: set<Path>): (r: Step)
    requires IsPrefix(base, file)
    ensures r.Step? ==> (r.report.orig, r.report.dest) == Planned(task, base, file)
    ensures task.mode == Compare || task.dry ==>
              r.Step? && r.fs == fs && r.report.status == CheckFile(fs, r.report.orig, r.report.dest)
    ensures r.Step? && task.mode != Compare && !task.dry ==>
              r.report.status in {NotFound, DifferentFiles, Linked, Overwrited, FileSystemError}
    ensures r.Step? && r.conflict ==> task.mode == Compare && r.report.status == DifferentFiles
    ensures r.Step? && task.mode == Compare ==> (r.conflict <==> r.report.status == DifferentFiles)
  {
    var rel := RelativeTo(file, base);
    var od := OrigDest(task.mode, task.repo, task.home, rel);
    var status := CheckFile(fs, od.0, od.1);
    if task.mode == Compare then
      Step(fs, Report(status, od.0, od.1), status == DifferentFiles)
    else if task.dry then
      Step(fs, Report(status, od.0, od.1), false)
    else
      match LinkFile(fs, od.0, od.1, rel, task.overwrite, od.1 !in failing)
      case Done(fs1, s) => Step(fs1, Report(s, od.0, od.1), false)
      case Raised(fs1, e) => Abort(fs1, e)
  }

  /** The outcome of a batch: the filesystem, the reports so far, the compare conflicts and the exception that ended it, if any. */
  datatype Batch = Batch(fs: FS, reports: seq<Report>, conflicts: seq<(Path, Path)>, error: Option<OsError>)

  /** The origin/destination pairs of the reports that say DIFFERENT FILES, in order. */
  function DifferentPairs(reports: seq<Report>): seq<(Path, Path)> {
    if |reports| == 0 then []
    else (if reports[0].status == DifferentFiles then [(reports[0].orig, reports[0].dest)] else [])
         + DifferentPairs(reports[1..])
  }

  /** The loop of `run` over an already listed batch of files; an exception ends the batch. */
  function RunFiles(fs: FS, task: Task, base: Path, files: seq<Path>, failing: set<Path>): (r: Batch)
    requires forall f :: f in files ==> IsPrefix(base, f)
    decreases |files|
    ensures |r.reports| <= |files|
    ensures r.error.None? ==> |r.reports| == |files|
  {
    if |files| == 0 then Batch(fs, [], [], None)
    else
      var step := ProcessFile(fs, task, base, files[0], failing);
      if step.Abort? then Batch(step.fs, [], [], Some(step.error))
      else
        assert forall f :: f in files[1..] ==> f in files;
        var rest := RunFiles(step.fs, task, base, files[1..], failing);
        var reports := [step.report] + rest.reports;
        Batch(rest.fs, reports, (if step.conflict then [(step.report.orig, step.report.dest)] else []) + rest.conflicts, rest.error)
  }

  /** The i-th report is about the i-th file: its origin and destination are the ones planned for it. */
  lemma {:induction false} RunFilesPlanned(fs: FS, task: Task, base: Path, files: seq<Path>, failing: set<Path>)
    requires forall f :: f in files ==> IsPrefix(base, f)
    ensures var r := RunFiles(fs, task, base, files, failing);
            forall i :: 0 <= i < |r.reports| ==> (r.reports[i].orig, r.reports[i].dest) == Planned(task, base, files[i])
    decreases |files|
  {
    if |files| > 0 {
      var step := ProcessFile(fs, task, base, files[0], failing);
      if step.Step? {
        RunFilesPlanned(step.fs, task, base, files[1..], failing);
        var r := RunFiles(fs, task, base, files, failing);
        var rest := RunFiles(step.fs, task, base, files[1..], failing);
        assert r.reports == [step.report] + rest.reports;
        forall i | 0 <= i < |r.reports|
          ensures (r.reports[i].orig, r.reports[i].dest) == Planned(task, base, files[i])
        {
          if i > 0 {
            assert r.reports[i] == rest.reports[i - 1];
            assert files[i] == files[1..][i - 1];
          }
        }
      }
    }
  }

  /** Compare and dry runs never change the filesystem, never raise, and report the inspection of every file. */
  lemma {:induction false} RunFilesInspectOnly(fs: FS, task: Task, base: Path, files: seq<Path>, failing: set<Path>)
    requires forall f :: f in files ==> IsPrefix(base, f)
    requires task.mode == Compare || task.dry
    ensures var r := RunFiles(fs, task, base, files, failing);
            && r.fs == fs
            && r.error.None?
            && forall i :: 0 <= i < |r.reports| ==> r.reports[i].status == CheckFile(fs, r.reports[i].orig, r.reports[i].dest)
    decreases |files|
  {
    if |files| > 0 {
      RunFilesInspectOnly(fs, task, base, files[1..], failing);
      var r := RunFiles(fs, task, base, files, failing);
      var rest := RunFiles(fs, task, base, files[1..], failing);
      assert r.reports[1..] == rest.reports;
    }
  }

  /** A linking run reports, for every file it got to, one of the statuses of the link step. */
  lemma {:induction false} RunFilesLinkStatuses(fs: FS, task: Task, base: Path, files: seq<Path>, failing: set<Path>)
    requires forall f :: f in files ==> IsPrefix(base, f)
    requires task.mode != Compare && !task.dry
    ensures var r := RunFiles(fs, task, base, files, failing);
            forall i :: 0 <= i < |r.reports| ==> r.reports[i].status in {NotFound, DifferentFiles, Linked, Overwrited, FileSystemError}
    decreases |files|
  {
    if |files| > 0 {
      var step := ProcessFile(fs, task, base, files[0], failing);
      if step.Step? {
        RunFilesLinkStatuses(step.fs, task, base, files[1..], failing);
        var r := RunFiles(fs, task, base, files, failing);
        assert r.reports[1..] == RunFiles(step.fs, task, base, files[1..], failing).reports;
      }
    }
  }

  /** Only compare runs collect conflicts, and they collect exactly the pairs reported as DIFFERENT FILES. */
  lemma {:induction false} RunFilesConflicts(fs: FS, task: Task, base: Path, files: seq<Path>, failing: set<Path>)
    requires forall f :: f in files ==> IsPrefix(base, f)
    ensures task.mode == Compare ==> RunFiles(fs, task, base, files, failing).conflicts == DifferentPairs(RunFiles(fs, task, base, files, failing).reports)
    ensures task.mode != Compare ==> RunFiles(fs, task, base, files, failing).conflicts == []
    decreases |files|
  {
    if |files| > 0 {
      var step := ProcessFile(fs, task, base, files[0], failing);
      if step.Step? {
        RunFilesConflicts(step.fs, task, base, files[1..], failing);
        var r := RunFiles(fs, task, base, files, failing);
        assert r.reports[1..] == RunFiles(step.fs, task, base, files[1..], failing).reports;
      }
    }
  }

  /** `rglob("*")` filtered by `not is_dir()` for a directory target; any other target is a batch of itself. */
  function Expand(fs: FS, target: Path): set<Path> {
    if IsDir(fs, target) then set p | p in fs.Keys && IsAncestor(target, p) && !fs[p].Dir?
    else {target}
  }

  /**
   * Lists the files of a target. The order of a directory walk depends on the
   * filesystem, so each next entry is an arbitrary one not yet visited.
   */
  method ListFiles(fs: FS, target: Path) returns (files: seq<Path>)
    ensures forall p :: p in files <==> p in Expand(fs, target)
    ensures forall i, j :: 0 <= i < j < |files| ==> files[i] != files[j]
  {
    if !IsDir(fs, target) {
      return [target];
    }
    files := [];
    var pending := fs.Keys;
    while pending != {}
      invariant pending <= fs.Keys
      invariant forall p :: p in files <==> p in fs.Keys && p !in pending && IsAncestor(target, p) && !fs[p].Dir?
      invariant forall i, j :: 0 <= i < j < |files| ==> files[i] != files[j]
      decreases |pending|
    {
      var p :| p in pending;
      pending := pending - {p};
      if IsAncestor(target, p) && !fs[p].Dir? {
        files := files + [p];
      }
    }
  }

  /** A list without repetitions has as many elements as the set of its elements. */
  lemma {:induction false} DistinctListSize(files: seq<Path>, s: set<Path>)
    requires forall i, j :: 0 <= i < j < |files| ==> files[i] != files[j]
    requires forall p :: p in files <==> p in s
    ensures |files| == |s|
  {
    if |files| > 0 {
      var last := files[|files| - 1];
      var init := files[..|files| - 1];
      assert forall p :: p in init <==> p in s - {last} by {
        forall p
          ensures p in init <==> p in s - {last}
        {
          if p in init {
            var i :| 0 <= i < |init| && init[i] == p;
            assert files[i] == p;
          }
          if p in s - {last} {
            assert p in files;
            var i :| 0 <= i < |files| && files[i] == p;
            assert i < |files| - 1;
            assert init[i] == p;
          }
        }
      }
      DistinctListSize(init, s - {last});
    } else {
      assert forall p :: p !in s;
      assert s == {};
    }
  }

  /** Every file of the batch lies under the base the target is relative to. */
  lemma ExpandUnderBase(fs: FS, target: Path, base: Path)
    requires IsPrefix(base, target)
    ensures forall f :: f in Expand(fs, target) ==> IsPrefix(base, f)
  {
    forall f | f in Expand(fs, target)
      ensures IsPrefix(base, f)
    {
      if f != target {
        PrefixTransitive(base, target, f);
      }
    }
  }

  /** The command-line parameters of a task. */
  datatype Args = Args(modes: ModeArgs, dry: bool, overwrite: bool)

  /** A task ready to run: its parameters, its resolved target and the root that target is relative to. */
  datatype Prepared = Prepared(task: Task, target: Path, base: Path)

  /**
   * Building the task: mode selection, then resolving the target string with
   * `resolve` (user expansion and symlink resolution), then the root checks
   * and the membership rule.
   */
  function Prepare(fs: FS, args: Args, repo: Path, home: Path, resolve: string -> Path): (r: Result<Prepared, TaskError>)
    ensures SelectMode(args.modes).Err? ==> r == Err(SelectMode(args.modes).error)
    ensures r.Err? && r.error in {RepoNotFound, HomeNotFound, NotRelative} ==> SelectMode(args.modes).Ok?
    ensures r.Ok? ==> SelectMode(args.modes).Ok?
    ensures r.Ok? ==>
              && r.value.task == Task(SelectMode(args.modes).value.0, repo, home, args.dry, args.overwrite)
              && r.value.target == resolve(SelectMode(args.modes).value.1)
              && Resolve(fs, repo, home, r.value.target) == Ok(r.value.base)
              && IsPrefix(r.value.base, r.value.target)
    ensures SelectMode(args.modes).Ok? && r.Err? ==>
              Resolve(fs, repo, home, resolve(SelectMode(args.modes).value.1)) == Err(r.error)
  {
    match SelectMode(args.modes)
    case Err(e) => Err(e)
    case Ok(sel) =>
      var target := resolve(sel.1);
      match Resolve(fs, repo, home, target)
      case Err(e) => Err(e)
      case Ok(base) => Ok(Prepared(Task(sel.0, repo, home, args.dry, args.overwrite), target, base))
  }

  /** What a run leaves behind: the files in the order visited, the filesystem, the reports, the diff requested and the exception that ended it. */
  datatype RunResult = RunResult(files: seq<Path>, fs: FS, reports: seq<Report>, diff: Option<(Path, Path)>, error: Option<OsError>)

  /** Counts the reports saying DIFFERENT FILES. */
  function CountDifferent(reports: seq<Report>): nat {
    |DifferentPairs(reports)|
  }

  /** `Task.run` from construction to the optional call of the diff viewer. */
  method Run(fs: FS, args: Args, repo: Path, home: Path, resolve: string -> Path, failing: set<Path>)
    returns (r: Result<RunResult, TaskError>)
    ensures r.Err? <==> Prepare(fs, args, repo, home, resolve).Err?
    ensures r.Err? ==> r.error == Prepare(fs, args, repo, home, resolve).error
    ensures r.Ok? ==>
              var p := Prepare(fs, args, repo, home, resolve).value;
              && (forall f :: f in r.value.files <==> f in Expand(fs, p.target))
              && (forall i, j :: 0 <= i < j < |r.value.files| ==> r.value.files[i] != r.value.files[j])
              && (forall f :: f in r.value.files ==> IsPrefix(p.base, f))
              && |r.value.reports| <= |r.value.files|
              && (r.value.error.None? ==> |r.value.reports| == |Expand(fs, p.target)|)
              && (forall i :: 0 <= i < |r.value.reports| ==>
                    (r.value.reports[i].orig, r.value.reports[i].dest) == Planned(p.task, p.base, r.value.files[i]))
    // compare and dry runs never change the filesystem and report the inspection
    ensures r.Ok? && (args.dry || SelectMode(args.modes).value.0 == Compare) ==>
              && r.value.fs == fs
              && r.value.error.None?
              && forall i :: 0 <= i < |r.value.reports| ==>
                   r.value.reports[i].status == CheckFile(fs, r.value.reports[i].orig, r.value.reports[i].dest)
    // the diff viewer is asked for exactly when one compared file differs, and for that file
    ensures r.Ok? && SelectMode(args.modes).value.0 == Compare ==>
              && (r.value.diff.Some? <==> CountDifferent(r.value.reports) == 1)
              && (r.value.diff.Some? ==> exists i :: 0 <= i < |r.value.reports| && r.value.reports[i].status == DifferentFiles &&
                                          r.value.diff.value == (r.value.reports[i].orig, r.value.reports[i].dest))
    ensures r.Ok? && SelectMode(args.modes).value.0 != Compare ==> r.value.diff.None?
  {
    var prepared := Prepare(fs, args, repo, home, resolve);
    if prepared.Err? {
      return Err(prepared.error);
    }
    var p := prepared.value;
    var files := ListFiles(fs, p.target);
    ExpandUnderBase(fs, p.target, p.base);
    DistinctListSize(files, Expand(fs, p.target));
    var batch := RunFiles(fs, p.task, p.base, files, failing);
    if p.task.mode == Compare || p.task.dry {
      RunFilesInspectOnly(fs, p.task, p.base, files, failing);
    }
    RunFilesConflicts(fs, p.task, p.base, files, failing);
    RunFilesPlanned(fs, p.task, p.base, files, failing);
    var diff := if batch.error.None? && |batch.conflicts| == 1 then Some(batch.conflicts[0]) else None;
    if diff.Some? {
      DifferentPairsSource(batch.reports, 0);
    }
    return Ok(RunResult(files, batch.fs, batch.reports, diff, batch.error));
  }

  /** Every pair listed as different comes from a report that says DIFFERENT FILES. */
  lemma {:induction false} DifferentPairsSource(reports: seq<Report>, k: nat)
    requires k < |DifferentPairs(reports)|
    ensures exists i :: 0 <= i < |reports| && reports[i].status == DifferentFiles &&
                        DifferentPairs(reports)[k] == (reports[i].orig, reports[i].dest)
    decreases |reports|
  {
    var head := if reports[0].status == DifferentFiles then [(reports[0].orig, reports[0].dest)] else [];
    if k < |head| {
      assert DifferentPairs(reports)[k] == (reports[0].orig, reports[0].dest);
    } else {
      DifferentPairsSource(reports[1..], k - |head|);
      var i :| 0 <= i < |reports[1..]| && reports[1..][i].status == DifferentFiles &&
               DifferentPairs(reports[1..])[k - |head|] == (reports[1..][i].orig, reports[1..][i].dest);
      assert reports[i + 1] == reports[1..][i];
    }
  }
}
